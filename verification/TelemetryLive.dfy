/** What the telemetry writer gets done by its own steps. */
module TelemetryLive {
  import opened Words
  import opened Telemetry
  import opened TelemetryRuns

  predicate ByWriter(us: seq<Step>) {
    forall k :: 0 <= k < |us| ==> !ByProducer(us[k])
  }

  /** The step the writer thread takes next. */
  function NextStep(s: State): Step
    requires Formed(s)
  {
    match s.writer
    case Scanning => LoadHead
    case Draining(_) => LoadTailSlot
    case Reading(_, acc) => if |acc| < s.slots[Idx(s.tail)].len then ReadByte else WriteSink
    case Wrote(_) => StoreEmpty
    case Emptied(_) => AdvanceTail
    case Checking => LoadDropped
    case Reporting(_) => ReportDropped
  }

  /** The writer always has a step, and only that one. */
  lemma WriterStep(s: State, t: Step)
    requires Safe(s)
    ensures Enabled(s, NextStep(s)) && !ByProducer(NextStep(s))
    ensures Enabled(s, t) && !ByProducer(t) ==> t == NextStep(s)
  {
    hide Idx, Counted, History, EmitOk, SlotOk;
  }

  // ---------------------------------------------------------------------------
  // The line at the tail
  // ---------------------------------------------------------------------------

  /** A complete line waits in the slot at the tail, and the writer is not just leaving that slot. */
  ghost predicate LineWaits(s: State)
    requires Formed(s)
  {
    && s.tail != s.head && !s.writer.Emptied?
    && Idx(s.tail) in s.owner && s.slots[Idx(s.tail)].state == Filled
  }

  ghost function WaitingLine(s: State): seq<Byte>
    requires Formed(s) && LineWaits(s)
  {
    var r := s.owner[Idx(s.tail)];
    if r < |s.lines| then s.lines[r] else []
  }

  /** How many steps the writer is from putting that line out, at most. */
  function Distance(s: State): nat
    requires Formed(s)
  {
    match s.writer
    case Reading(_, acc) =>
      var len := s.slots[Idx(s.tail)].len;
      if |acc| < len then len - |acc| + 1 else 1
    case Draining(snap) => if snap != s.tail then SLOT_CAP + 1 else SLOT_CAP + 5
    case Scanning => SLOT_CAP + 2
    case Reporting(_) => SLOT_CAP + 3
    case Checking => SLOT_CAP + 4
    case _ => SLOT_CAP + 6
  }

  /** Every step of the writer brings the waiting line closer, until it is put out, as it was given. */
  lemma Closer(s: State, t: Step)
    requires Safe(s) && LineWaits(s) && Enabled(s, t) && !ByProducer(t)
    ensures var s' := Apply(s, t);
            if t.WriteSink? then s'.sink == s.sink + [WaitingLine(s)]
            else Formed(s') && LineWaits(s') && Distance(s') < Distance(s)
                 && s'.sink == s.sink && s'.lines == s.lines && s'.owner == s.owner && s'.tail == s.tail
  {
    assert SlotOk(s, Idx(s.tail)) && WriterOk(s) && Formed(s);
    FormedKept(s, t);
    hide Idx, Safe, Counted, History, EmitOk, Accounted;
  }

  lemma {:induction false} StillWaits(ts: seq<Step>, us: seq<Step>)
    requires Exec(ts).Some? && LineWaits(Exec(ts).value) && ByWriter(us) && Exec(ts + us).Some?
    ensures var s, s' := Exec(ts).value, Exec(ts + us).value;
            || s.sink + [WaitingLine(s)] <= s'.sink
            || (&& LineWaits(s') && Distance(s') + |us| <= Distance(s)
                && s'.sink == s.sink && s'.lines == s.lines && s'.owner == s.owner && s'.tail == s.tail)
  {
    hide Apply, Enabled, LineWaits, Distance, Idx;
    if us == [] {
      assert ts + us == ts;
    } else {
      var n := |us| - 1;
      var front, t := us[..n], us[n];
      assert (ts + us)[..|ts + us| - 1] == ts + front && (ts + us)[|ts + us| - 1] == t;
      StillWaits(ts, front);
      var mid := Exec(ts + front).value;
      RunSafe(ts + front);
      SinkGrows(mid, t);
      if LineWaits(mid) && Distance(mid) + n <= Distance(Exec(ts).value) && mid.owner == Exec(ts).value.owner {
        Closer(mid, t);
      }
    }
  }

  lemma SinkGrows(s: State, t: Step)
    requires Formed(s) && Enabled(s, t)
    ensures s.sink <= Apply(s, t).sink && s.lines <= Apply(s, t).lines
  {
    hide Idx;
  }

  /** With no assumption on load: a complete line waiting at the tail is put out, whole, within 390 steps of
      the writer, whichever those are. */
  lemma WaitingLineWritten(ts: seq<Step>, us: seq<Step>)
    requires Exec(ts).Some? && LineWaits(Exec(ts).value) && ByWriter(us) && Exec(ts + us).Some? && |us| >= 390
    ensures var s := Exec(ts).value;
            && s.owner[Idx(s.tail)] < |s.lines| && WaitingLine(s) == s.lines[s.owner[Idx(s.tail)]]
            && s.sink + [WaitingLine(s)] <= Exec(ts + us).value.sink
  {
    hide Exec, Idx;
    var s := Exec(ts).value;
    RunSafe(ts);
    assert SlotOk(s, Idx(s.tail));
    StillWaits(ts, us);
    AtLeastOne(s);
    if LineWaits(Exec(ts + us).value) { AtLeastOne(Exec(ts + us).value); }
  }

  lemma AtLeastOne(s: State)
    requires Formed(s)
    ensures 1 <= Distance(s) <= 390
  {
    hide Idx;
  }

  // ---------------------------------------------------------------------------
  // Everything is written in the end
  // ---------------------------------------------------------------------------

  /** An upper bound on the writer's steps until the sink has all lines. */
  function Work(s: State): nat
    requires Formed(s) && |s.sink| <= |s.lines|
  {
    (|s.lines| - |s.sink|) * (SLOT_CAP + 10) + if s.writer.Wrote? then SLOT_CAP + 7 else Distance(s)
  }

  lemma CursorsDiffer(m: nat, n: nat)
    requires m < n <= m + RING_SLOTS
    ensures m % TWO32 != n % TWO32
  {
  }

  /** With no call in flight and lines left, the next one waits at the tail. */
  lemma NextLineWaits(s: State)
    requires Safe(s) && Fifo(s) && s.emits == map[] && |s.sink| < |s.lines|
    requires !s.writer.Wrote? && !s.writer.Emptied?
    ensures LineWaits(s)
  {
    TailIdx(s);
    hide Idx;
    var r := s.tailMoves;
    assert |s.sink| == |s.written| == r;
    assert Accounted(s, r);
    assert forall k :: 0 <= k < |s.written| ==> s.written[k] != r;
    assert SlotOk(s, Idx(r));
    CursorsDiffer(r, |s.lines|);
  }

  lemma LessWork(s: State, t: Step)
    requires Safe(s) && Fifo(s) && s.emits == map[] && |s.sink| < |s.lines| && Enabled(s, t) && !ByProducer(t)
    ensures var s' := Apply(s, t);
            && Formed(s') && s'.emits == map[] && s'.lines == s.lines && |s'.sink| <= |s'.lines|
            && Work(s') < Work(s)
  {
    assert Formed(s);
    FormedKept(s, t);
    if s.writer.Wrote? || s.writer.Emptied? {
      hide Idx, Safe, Fifo;
    } else {
      NextLineWaits(s);
      Closer(s, t);
      OnlyWriter(s, t);
      hide Idx, Safe, Fifo, LineWaits, Distance;
      AtLeastOne(s);
    }
  }

  lemma OnlyWriter(s: State, t: Step)
    requires Formed(s) && Enabled(s, t) && !ByProducer(t)
    ensures Apply(s, t).emits == s.emits && Apply(s, t).lines == s.lines
    ensures t.WriteSink? ==> Apply(s, t).writer.Wrote?
    ensures !t.WriteSink? && !s.writer.Wrote? ==> !Apply(s, t).writer.Wrote?
  {
    hide Idx;
  }

  lemma {:induction false} WorkFalls(ts: seq<Step>, us: seq<Step>)
    requires Exec(ts).Some? && NeverOverfull(ts) && Exec(ts).value.emits == map[]
    requires ByWriter(us) && Exec(ts + us).Some?
    ensures var s, s' := Exec(ts).value, Exec(ts + us).value;
            && |s.sink| <= |s.lines| && |s'.sink| <= |s'.lines| && s'.lines == s.lines && s'.emits == map[]
            && (s'.sink == s'.lines || Work(s') + |us| <= Work(s))
  {
    hide Apply, Enabled, Work, Fifo, Safe, Idx, NeverOverfull;
    InReservationOrder(ts);
    if us == [] {
      assert ts + us == ts;
    } else {
      var n := |us| - 1;
      var front, t := us[..n], us[n];
      assert (ts + us)[..|ts + us| - 1] == ts + front && (ts + us)[|ts + us| - 1] == t;
      WorkFalls(ts, front);
      NeverOverfullThen(ts, us);
      NeverOverfullThen(ts, front);
      InReservationOrder(ts + us);
      FifoRun(ts + front);
      var mid := Exec(ts + front).value;
      OnlyWriter(mid, t);
      SinkGrows(mid, t);
      if |mid.sink| < |mid.lines| {
        LessWork(mid, t);
      } else {
        InReservationOrder(ts + front);
      }
    }
  }

  lemma {:induction false} WriterRuns(ts: seq<Step>, n: nat) returns (us: seq<Step>)
    requires Exec(ts).Some?
    ensures |us| == n && ByWriter(us) && Exec(ts + us).Some?
  {
    hide Exec, Apply, Enabled;
    if n == 0 {
      us := [];
      assert ts + us == ts;
    } else {
      var front := WriterRuns(ts, n - 1);
      RunSafe(ts + front);
      var t := NextStep(Exec(ts + front).value);
      WriterStep(Exec(ts + front).value, t);
      ExecSnoc(ts + front, t);
      us := front + [t];
      assert ts + us == (ts + front) + [t];
    }
  }

  /** After any run without overfilling and with no call in flight, the writer alone puts everything out:
      it can always go on, and once it has taken enough steps the sink is exactly the lines reserved. */
  lemma WriterDrains(ts: seq<Step>, us: seq<Step>)
    requires Exec(ts).Some? && NeverOverfull(ts) && Exec(ts).value.emits == map[]
    requires ByWriter(us) && Exec(ts + us).Some?
    ensures var s := Exec(ts).value;
            && |s.sink| <= |s.lines|
            && (|us| >= Work(s) ==> Exec(ts + us).value.sink == s.lines)
  {
    hide Exec, Work;
    InReservationOrder(ts);
    WorkFalls(ts, us);
    var s' := Exec(ts + us).value;
    if s'.sink != s'.lines { SomeWork(s'); }
  }

  lemma SomeWork(s: State)
    requires Formed(s) && |s.sink| <= |s.lines|
    ensures Work(s) >= 1
  {
    hide Idx;
    AtLeastOne(s);
  }

  // ---------------------------------------------------------------------------
  // Drops are reported
  // ---------------------------------------------------------------------------

  /** An upper bound on the writer's steps until it looks at the drop counter. */
  function UntilCheck(s: State): nat
    requires Formed(s)
  {
    |s.owner| * (SLOT_CAP + 10) +
    match s.writer
    case Checking => 0
    case Reading(_, acc) =>
      var len := s.slots[Idx(s.tail)].len;
      if |acc| < len then len - |acc| + 1 else 1
    case Draining(_) => SLOT_CAP + 2
    case Scanning => SLOT_CAP + 3
    case Reporting(_) => SLOT_CAP + 4
    case Emptied(_) => SLOT_CAP + 5
    case Wrote(_) => SLOT_CAP + 6
  }

  lemma ReadNearer(s: State)
    requires Safe(s) && s.writer.Reading? && Enabled(s, NextStep(s))
    ensures var s' := Apply(s, NextStep(s)); Formed(s') && UntilCheck(s') < UntilCheck(s)
  {
    var i := Idx(s.tail);
    assert Formed(s) && i in s.owner;
    FormedKept(s, NextStep(s));
    OneLess(s.owner, i);
    hide Idx, Safe, Formed;
  }

  lemma CheckNearer(s: State)
    requires Safe(s) && !s.writer.Checking? && Enabled(s, NextStep(s))
    ensures var s' := Apply(s, NextStep(s)); Formed(s') && UntilCheck(s') < UntilCheck(s)
  {
    if s.writer.Reading? {
      ReadNearer(s);
    } else {
      assert Formed(s);
      FormedKept(s, NextStep(s));
      WriterMoves(s);
      hide Idx, Safe, Formed, Apply;
    }
  }

  /** Where the writer goes outside its reading of a line. */
  lemma WriterMoves(s: State)
    requires Formed(s) && !s.writer.Checking? && !s.writer.Reading? && Enabled(s, NextStep(s))
    ensures var s' := Apply(s, NextStep(s));
            && s'.owner == s.owner
            && (s.writer.Scanning? ==> s'.writer.Draining?)
            && (s.writer.Draining? ==> s'.writer.Checking? || s'.writer.Reading?)
            && (s'.writer.Reading? ==> s'.slots[Idx(s'.tail)].len < SLOT_CAP)
            && (s.writer.Wrote? ==> s'.writer.Emptied?) && (s.writer.Emptied? ==> s'.writer.Draining?)
            && (s.writer.Reporting? ==> s'.writer.Scanning?)
  {
    hide Idx;
  }

  lemma OneLess(m: map<nat, nat>, i: nat)
    requires i in m
    ensures |m - {i}| == |m| - 1
  {
    assert (m - {i}).Keys == m.Keys - {i};
    assert |m.Keys| == |m| && |(m - {i}).Keys| == |m - {i}|;
  }

  lemma {:induction false} RunToCheck(ts: seq<Step>) returns (us: seq<Step>)
    requires Exec(ts).Some?
    ensures ByWriter(us) && Exec(ts + us).Some? && Exec(ts + us).value.writer.Checking?
    ensures Exec(ts + us).value.dropped == Exec(ts).value.dropped
    decreases UntilCheck(Exec(ts).value)
  {
    hide Exec, Apply, Enabled, UntilCheck, NextStep, Safe;
    var s := Exec(ts).value;
    if s.writer.Checking? {
      us := [];
      assert ts + us == ts;
    } else {
      RunSafe(ts);
      var t := NextStep(s);
      WriterStep(s, t);
      CheckNearer(s);
      ExecSnoc(ts, t);
      SameDrops(s, t);
      var more := RunToCheck(ts + [t]);
      us := [t] + more;
      assert ts + us == (ts + [t]) + more;
    }
  }

  lemma SameDrops(s: State, t: Step)
    requires Formed(s) && Enabled(s, t) && !ByProducer(t)
    ensures Apply(s, t).dropped == s.dropped
  {
    hide Idx;
  }

  /** From every reachable state some steps of the writer alone report every drop there has been. */
  lemma DropsReported(ts: seq<Step>) returns (us: seq<Step>)
    requires Exec(ts).Some?
    ensures ByWriter(us) && Exec(ts + us).Some?
    ensures var s := Exec(ts + us).value; s.gDropped == 0 && s.reported == |Exec(ts).value.dropped|
  {
    hide Exec, Idx;
    us := RunToCheck(ts);
    var s := Exec(ts + us).value;
    RunSafe(ts + us);
    if s.gDropped > 0 {
      var a := ts + us;
      ExecSnoc(a, LoadDropped);
      ExecSnoc(a + [LoadDropped], ReportDropped);
      us := us + [LoadDropped, ReportDropped];
      assert ts + us == (a + [LoadDropped]) + [ReportDropped];
    }
  }
}
