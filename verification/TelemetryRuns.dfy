/** What the telemetry ring guarantees over every interleaving. */
module TelemetryRuns {
  import opened Words
  import opened Telemetry

  /** The state after a sequence of steps, if each is enabled where it is taken. */
  function Exec(ts: seq<Step>): (r: Option<State>)
    ensures r.Some? ==> Formed(r.value)
  {
    if ts == [] then Some(Init())
    else
      var n := |ts| - 1;
      var before := Exec(ts[..n]);
      if before.Some? && Enabled(before.value, ts[n]) then
        FormedKept(before.value, ts[n]);
        Some(Apply(before.value, ts[n]))
      else None
  }

  lemma {:induction false} RunSafe(ts: seq<Step>)
    requires Exec(ts).Some?
    ensures Safe(Exec(ts).value)
  {
    hide Safe, Apply, Enabled;
    if ts == [] {
      InitSafe();
    } else {
      var n := |ts| - 1;
      RunSafe(ts[..n]);
      SafeStep(Exec(ts[..n]).value, ts[n]);
    }
  }

  // ---------------------------------------------------------------------------
  // Safety, with no assumption on load
  // ---------------------------------------------------------------------------

  /** The call has claimed its slot and not yet published it. */
  predicate InSlot(e: Emit) {
    e.phase.Filling? || e.phase.LenStored?
  }

  /** The reservations whose lines are published and not yet written. */
  function Buffered(s: State): set<nat> {
    set r: nat | r < |s.lines| && Idx(r) in s.owner && s.owner[Idx(r)] == r && r !in s.emits
  }

  lemma Fate(s: State, r: nat)
    requires Safe(s)
    ensures r < |s.lines| <==> r in s.emits || r in s.dropped || r in Buffered(s) || r in s.written
    ensures r in s.emits ==> r !in s.dropped && r !in Buffered(s) && r !in s.written
    ensures r in s.dropped ==> r !in Buffered(s) && r !in s.written
    ensures r in Buffered(s) ==> r !in s.written
  {
    hide Idx, WriterOk, SlotOk, Counted;
    assert r in s.emits ==> EmitOk(s, r);
    assert r < |s.lines| ==> Accounted(s, r);
  }

  /** The four fates, as sets, are disjoint and cover all reservations. */
  lemma Fates(s: State)
    requires Safe(s)
    ensures Below(|s.lines|) == s.emits.Keys + (s.dropped + (Buffered(s) + Members(s.written)))
    ensures s.emits.Keys !! s.dropped + (Buffered(s) + Members(s.written))
    ensures s.dropped !! Buffered(s) + Members(s.written) && Buffered(s) !! Members(s.written)
  {
    hide Safe, Buffered, Below;
    forall r: nat
      ensures r < |s.lines| <==> r in s.emits || r in s.dropped || r in Buffered(s) || r in s.written
      ensures r in s.emits ==> r !in s.dropped && r !in Buffered(s) && r !in s.written
      ensures r in s.dropped ==> r !in Buffered(s) && r !in s.written
      ensures r in Buffered(s) ==> r !in s.written
    {
      Fate(s, r);
    }
  }

  lemma Conserved(s: State)
    requires Safe(s)
    ensures |s.lines| == |s.emits| + |s.dropped| + |Buffered(s)| + |s.written|
  {
    Fates(s);
    MembersSize(s.written);
    hide *;
    var done, buffered := Members(s.written), Buffered(s);
    assert |buffered + done| == |buffered| + |done|;
    assert |s.dropped + (buffered + done)| == |s.dropped| + |buffered + done|;
    assert |Below(|s.lines|)| == |s.emits.Keys| + |s.dropped + (buffered + done)|;
  }

  /** In every reachable state: no two calls share a claimed slot; every line in the sink is one
      reservation's complete line, none twice; every reservation is in flight, dropped, buffered or
      written, once; and reported plus pending drops are all drops. */
  lemma Safety(ts: seq<Step>)
    requires Exec(ts).Some?
    ensures var s := Exec(ts).value;
            && (forall q, r :: q in s.emits && r in s.emits && q != r && InSlot(s.emits[q]) && InSlot(s.emits[r])
                               ==> Idx(s.emits[q].h) != Idx(s.emits[r].h))
            && |s.sink| == |s.written|
            && (forall k :: 0 <= k < |s.sink| ==> 0 <= s.written[k] < |s.lines| && s.sink[k] == s.lines[s.written[k]])
            && (forall j, k :: 0 <= j < k < |s.written| ==> s.written[j] != s.written[k])
            && |s.lines| == |s.emits| + |s.dropped| + |Buffered(s)| + |s.written|
            && s.reported + s.gDropped == |s.dropped|
  {
    hide Idx, Exec, Apply, Enabled;
    RunSafe(ts);
    var s := Exec(ts).value;
    Conserved(s);
    forall r | r in s.emits
      ensures EmitOk(s, r)
    {
    }
  }

  // ---------------------------------------------------------------------------
  // FIFO order, while no reservation finds the ring overfull
  // ---------------------------------------------------------------------------

  /** How many slots the writer has released so far. */
  function Released(s: State): nat {
    s.tailMoves + if s.writer.Emptied? then 1 else 0
  }

  /** The step does not reserve beyond the ring. */
  predicate Fits(s: State, t: Step) {
    t.Reserve? ==> |s.lines| - Released(s) < RING_SLOTS
  }

  /** Every reservation of the run finds fewer than a ring of lines ahead of it. */
  ghost predicate NeverOverfull(ts: seq<Step>) {
    forall i :: 0 <= i < |ts| && Exec(ts[..i]).Some? ==> Fits(Exec(ts[..i]).value, ts[i])
  }

  function Out(s: State): nat {
    s.tailMoves + if s.writer.Wrote? || s.writer.Emptied? then 1 else 0
  }

  ghost predicate Fifo(s: State) {
    && s.dropped == {} && (forall r :: r in s.emits ==> !s.emits[r].phase.Dropping?)
    && s.tailMoves <= |s.lines| <= Released(s) + RING_SLOTS
    && |s.written| == Out(s)
    && (forall k :: 0 <= k < |s.written| ==> s.written[k] == k)
  }

  lemma SameSlot(q: nat, r: nat)
    requires Idx(q) == Idx(r) && q < r + RING_SLOTS && r < q + RING_SLOTS
    ensures q == r
  {
  }

  lemma InPrefix(w: seq<nat>, r: nat)
    requires forall k :: 0 <= k < |w| ==> w[k] == k
    ensures r < |w| ==> r in w
  {
    if r < |w| { assert w[r] == r; }
  }

  /** Reservations not yet written are the most recent ones. */
  lemma OwnerIsRecent(s: State, i: nat)
    requires Safe(s) && Fifo(s) && i in s.owner && i < RING_SLOTS
    ensures Idx(s.owner[i]) == i && |s.written| <= s.owner[i] < |s.lines|
  {
    hide Idx;
    assert SlotOk(s, i);
    var r := s.owner[i];
    assert Accounted(s, r);
    InPrefix(s.written, r);
  }

  lemma EmitIsRecent(s: State, r: nat)
    requires Safe(s) && Fifo(s) && r in s.emits
    ensures |s.written| <= r < |s.lines| && Idx(s.emits[r].h) == Idx(r)
  {
    hide Idx;
    assert EmitOk(s, r);
    assert Accounted(s, r);
    InPrefix(s.written, r);
  }

  lemma TailIdx(s: State)
    requires Safe(s)
    ensures Idx(s.tail) == Idx(s.tailMoves)
  {
    IdxWraps(s.tailMoves);
  }

  /** A call that has not claimed its slot yet always finds it empty. */
  lemma FindsEmpty(s: State, r: nat)
    requires Safe(s) && Fifo(s) && r in s.emits && !InSlot(s.emits[r])
    ensures s.slots[Idx(s.emits[r].h)].state == EmptySlot
  {
    hide Idx;
    EmitIsRecent(s, r);
    TailIdx(s);
    var i := Idx(r);
    assert EmitOk(s, r) && SlotOk(s, i);
    if i in s.owner {
      OwnerIsRecent(s, i);
      SameSlot(s.owner[i], r);
      assert false;
    } else if Releasing(s, i) {
      SameSlot(s.tailMoves, r);
      assert false;
    }
  }

  lemma FifoStep(s: State, t: Step)
    requires Safe(s) && Fifo(s) && Enabled(s, t) && Fits(s, t)
    ensures Fifo(Apply(s, t))
  {
    hide Idx, SlotOk, EmitOk, Accounted;
    if t.LoadState? || t.Claim? {
      FindsEmpty(s, t.r);
    } else if t.WriteSink? {
      TailIdx(s);
      var i := Idx(s.tail);
      assert i in s.owner;
      OwnerIsRecent(s, i);
      SameSlot(s.owner[i], s.tailMoves);
    } else if t.AdvanceTail? {
      assert s.written[s.tailMoves] == s.tailMoves;
    }
  }

  lemma {:induction false} FifoRun(ts: seq<Step>)
    requires Exec(ts).Some? && NeverOverfull(ts)
    ensures Safe(Exec(ts).value) && Fifo(Exec(ts).value)
  {
    hide Safe, Apply, Enabled, Fits;
    RunSafe(ts);
    if ts != [] {
      hide Fifo;
      var n := |ts| - 1;
      assert forall i :: 0 <= i < n ==> ts[..n][..i] == ts[..i];
      FifoRun(ts[..n]);
      FifoStep(Exec(ts[..n]).value, ts[n]);
    }
  }

  /** Then nothing is dropped, and the sink receives the lines exactly in reservation order, for any
      number of producers and any interleaving. */
  lemma InReservationOrder(ts: seq<Step>)
    requires Exec(ts).Some? && NeverOverfull(ts)
    ensures var s := Exec(ts).value; s.dropped == {} && s.gDropped == 0 && s.sink <= s.lines
  {
    hide Exec;
    FifoRun(ts);
    var s := Exec(ts).value;
    forall k | 0 <= k < |s.sink|
      ensures k < |s.lines| && s.sink[k] == s.lines[k]
    {
      assert s.written[k] == k;
    }
    assert |s.written| <= |s.lines| by {
      if |s.written| > 0 { assert s.written[|s.written| - 1] == |s.written| - 1; }
    }
  }

  // ---------------------------------------------------------------------------
  // The condition is exact
  // ---------------------------------------------------------------------------

  lemma ExecSnoc(ts: seq<Step>, t: Step)
    requires Exec(ts).Some? && Enabled(Exec(ts).value, t)
    ensures Exec(ts + [t]) == Some(Apply(Exec(ts).value, t))
  {
    assert (ts + [t])[..|ts|] == ts;
  }

  predicate NoReserve(us: seq<Step>) {
    forall k :: 0 <= k < |us| ==> !us[k].Reserve?
  }

  lemma IdxAround(n: nat)
    ensures Idx(n) == Idx(n + RING_SLOTS)
  {
  }

  /** At a full ring the slot the next reservation gets is taken, or another call is about to claim it. */
  lemma SlotContended(s: State)
    requires Safe(s) && Fifo(s) && |s.lines| == Released(s) + RING_SLOTS
    ensures var f := Released(s);
            && Idx(f) == Idx(|s.lines|)
            && (s.slots[Idx(f)].state == EmptySlot ==>
                  && f in s.emits && Idx(s.emits[f].h) == Idx(f)
                  && (s.emits[f].phase.Reserved? || s.emits[f].phase.SawEmpty?))
  {
    hide Idx;
    var f := Released(s);
    TailIdx(s);
    IdxAround(f);
    assert Accounted(s, f) && SlotOk(s, Idx(f));
    if f in s.emits { assert EmitOk(s, f); }
    if f in s.written {
      var k :| 0 <= k < |s.written| && s.written[k] == f;
      assert Releasing(s, Idx(f));
    }
  }

  /** The newcomer finds the slot taken and is dropped. */
  lemma NewcomerDrops(ts: seq<Step>, r: nat) returns (us: seq<Step>)
    requires Exec(ts).Some?
    requires var s := Exec(ts).value;
             r in s.emits && s.emits[r].phase.Reserved? && s.slots[Idx(s.emits[r].h)].state != EmptySlot
    ensures NoReserve(us) && Exec(ts + us).Some? && r in Exec(ts + us).value.dropped
  {
    hide Exec, Idx;
    ExecSnoc(ts, LoadState(r));
    var a := ts + [LoadState(r)];
    ExecSnoc(a, CountDrop(r));
    us := [LoadState(r), CountDrop(r)];
    assert a + [CountDrop(r)] == ts + us;
  }

  /** The newcomer overtakes the call whose slot it was, and that one is dropped. */
  lemma NewcomerOvertakes(ts: seq<Step>, r: nat, f: nat) returns (us: seq<Step>)
    requires Exec(ts).Some? && r != f
    requires var s := Exec(ts).value;
             && r in s.emits && f in s.emits && Idx(s.emits[r].h) == Idx(s.emits[f].h)
             && s.slots[Idx(s.emits[r].h)].state == EmptySlot && s.emits[r].phase.Reserved?
             && (s.emits[f].phase.Reserved? || s.emits[f].phase.SawEmpty?)
    ensures NoReserve(us) && Exec(ts + us).Some? && f in Exec(ts + us).value.dropped
  {
    hide Exec, Idx;
    ExecSnoc(ts, LoadState(r));
    var a := ts + [LoadState(r)];
    ExecSnoc(a, Claim(r));
    var b := a + [Claim(r)];
    var late := if Exec(b).value.emits[f].phase.Reserved? then LoadState(f) else Claim(f);
    ExecSnoc(b, late);
    var c := b + [late];
    ExecSnoc(c, CountDrop(f));
    us := [LoadState(r), Claim(r), late, CountDrop(f)];
    assert c + [CountDrop(f)] == ts + us;
  }

  /** After any run without overfilling, a reservation at a full ring can lose a line: this is how. */
  lemma FullRingLoses(ts: seq<Step>, line: seq<Byte>) returns (us: seq<Step>)
    requires Exec(ts).Some? && NeverOverfull(ts) && 0 < |line| < SLOT_CAP
    requires !Fits(Exec(ts).value, Reserve(line))
    ensures NoReserve(us) && Exec(ts + [Reserve(line)] + us).Some?
    ensures Exec(ts + [Reserve(line)] + us).value.dropped != {}
  {
    hide Exec, Idx;
    FifoRun(ts);
    var s := Exec(ts).value;
    SlotContended(s);
    hide NeverOverfull, Safe, Fifo;
    var f, r := Released(s), |s.lines|;
    ExecSnoc(ts, Reserve(line));
    var full := ts + [Reserve(line)];
    assert Exec(full).value.emits[r].h == s.head;
    HeadIdx(ts);
    if s.slots[Idx(f)].state == EmptySlot {
      us := NewcomerOvertakes(full, r, f);
    } else {
      us := NewcomerDrops(full, r);
    }
  }

  lemma HeadIdx(ts: seq<Step>)
    requires Exec(ts).Some?
    ensures Idx(Exec(ts).value.head) == Idx(|Exec(ts).value.lines|)
  {
    RunSafe(ts);
    IdxWraps(|Exec(ts).value.lines|);
  }

  lemma {:induction false} NeverOverfullThen(ts: seq<Step>, us: seq<Step>)
    requires NeverOverfull(ts) && NoReserve(us)
    ensures NeverOverfull(ts + us)
  {
    hide Exec;
    var all := ts + us;
    forall i | 0 <= i < |all| && Exec(all[..i]).Some?
      ensures Fits(Exec(all[..i]).value, all[i])
    {
      if i < |ts| { assert all[..i] == ts[..i]; }
    }
  }

  lemma ReserveFits(ts: seq<Step>, line: seq<Byte>)
    requires NeverOverfull(ts) && Exec(ts).Some? && Fits(Exec(ts).value, Reserve(line))
    ensures NeverOverfull(ts + [Reserve(line)])
  {
    hide Exec;
    var all := ts + [Reserve(line)];
    forall i | 0 <= i < |all| && Exec(all[..i]).Some?
      ensures Fits(Exec(all[..i]).value, all[i])
    {
      assert all[..i] == ts[..i];
      if i == |ts| { assert ts[..i] == ts; }
    }
  }

  /** After any run without overfilling, the next reservation is safe, in that nothing is lost whatever
      the calls in flight and the writer do, if and only if it finds fewer than a ring of lines ahead
      of it. */
  lemma ReservationSafeIff(ts: seq<Step>, line: seq<Byte>)
    requires Exec(ts).Some? && NeverOverfull(ts) && 0 < |line| < SLOT_CAP
    ensures (forall us :: NoReserve(us) && Exec(ts + [Reserve(line)] + us).Some? ==>
                            Exec(ts + [Reserve(line)] + us).value.dropped == {})
            <==> Fits(Exec(ts).value, Reserve(line))
  {
    hide Exec;
    if Fits(Exec(ts).value, Reserve(line)) {
      ReserveFits(ts, line);
      forall us | NoReserve(us) && Exec(ts + [Reserve(line)] + us).Some?
        ensures Exec(ts + [Reserve(line)] + us).value.dropped == {}
      {
        NeverOverfullThen(ts + [Reserve(line)], us);
        InReservationOrder(ts + [Reserve(line)] + us);
      }
    } else {
      var us := FullRingLoses(ts, line);
    }
  }

  /** A full ring is reached by reserving alone. */
  lemma {:induction false} Filling(k: nat) returns (ts: seq<Step>)
    requires k <= RING_SLOTS
    ensures Exec(ts).Some? && NeverOverfull(ts)
    ensures |Exec(ts).value.lines| == k && Released(Exec(ts).value) == 0
  {
    if k == 0 {
      ts := [];
    } else {
      var before := Filling(k - 1);
      ReserveFits(before, [0]);
      ExecSnoc(before, Reserve([0]));
      ts := before + [Reserve([0])];
    }
  }
}
