/** The lock-free telemetry ring: any number of producers, one writer (src/core/telemetry.c).

    A state machine whose steps are the atomic accesses of the code. The copy into a slot and the read
    out of it go byte by byte, so nothing is assumed about them being atomic. */
module Telemetry {
  import opened Words

  const RING_SLOTS: nat := 16384
  const SLOT_CAP: nat := 384

  // ---------------------------------------------------------------------------
  // State
  // ---------------------------------------------------------------------------

  datatype SlotState = EmptySlot | Claimed | Filled

  datatype Slot = Slot(state: SlotState, buf: seq<Byte>, len: nat)

  /** Where a call of `vmc_tlm_emit` stands after its reservation. */
  datatype Phase = Reserved | SawEmpty | Filling(copied: nat) | LenStored | Dropping

  datatype Emit = Emit(line: seq<Byte>, h: u32, phase: Phase)

  /** Where the writer thread stands; `snap` is the head it loaded. */
  datatype Writer =
    | Scanning
    | Draining(snap: u32)
    | Reading(snap: u32, acc: seq<Byte>)
    | Wrote(snap: u32)
    | Emptied(snap: u32)
    | Checking
    | Reporting(seen: nat)

  /** The shared memory, the calls in flight by reservation number, the writer; and the history: the
      line of each reservation, which reservation owns which slot, the reservations written and
      dropped, how often the tail moved, and the number of drops reported. */
  datatype State = State(
    slots: seq<Slot>, head: u32, tail: u32, gDropped: nat,
    emits: map<nat, Emit>, writer: Writer, sink: seq<seq<Byte>>,
    lines: seq<seq<Byte>>, owner: map<nat, nat>, written: seq<nat>, dropped: set<nat>,
    tailMoves: nat, reported: nat)

  function Init(): State {
    State(seq(RING_SLOTS, _ => Slot(EmptySlot, seq(SLOT_CAP, _ => 0), 0)), 0, 0, 0,
          map[], Scanning, [], [], map[], [], {}, 0, 0)
  }

  function Idx(h: nat): (i: nat)
    ensures i < RING_SLOTS
  {
    h % RING_SLOTS
  }

  // ---------------------------------------------------------------------------
  // Steps
  // ---------------------------------------------------------------------------

  datatype Step =
    | Reserve(line: seq<Byte>)
    | LoadState(r: nat)
    | Claim(r: nat)
    | CopyByte(r: nat)
    | StoreLen(r: nat)
    | Publish(r: nat)
    | CountDrop(r: nat)
    | LoadHead
    | LoadTailSlot
    | ReadByte
    | WriteSink
    | StoreEmpty
    | AdvanceTail
    | LoadDropped
    | ReportDropped

  predicate Enabled(s: State, t: Step)
    requires Formed(s)
  {
    match t
    case Reserve(line) => 0 < |line| < SLOT_CAP
    case LoadState(r) => r in s.emits && s.emits[r].phase.Reserved?
    case Claim(r) => r in s.emits && s.emits[r].phase.SawEmpty?
    case CopyByte(r) => r in s.emits && s.emits[r].phase.Filling? && s.emits[r].phase.copied < |s.emits[r].line|
    case StoreLen(r) => r in s.emits && s.emits[r].phase.Filling? && s.emits[r].phase.copied == |s.emits[r].line|
    case Publish(r) => r in s.emits && s.emits[r].phase.LenStored?
    case CountDrop(r) => r in s.emits && s.emits[r].phase.Dropping?
    case LoadHead => s.writer.Scanning?
    case LoadTailSlot => s.writer.Draining?
    case ReadByte => s.writer.Reading? && |s.writer.acc| < s.slots[Idx(s.tail)].len
    case WriteSink => s.writer.Reading? && |s.writer.acc| == s.slots[Idx(s.tail)].len
    case StoreEmpty => s.writer.Wrote?
    case AdvanceTail => s.writer.Emptied?
    case LoadDropped => s.writer.Checking?
    case ReportDropped => s.writer.Reporting?
  }

  predicate ByProducer(t: Step) {
    t.Reserve? || t.LoadState? || t.Claim? || t.CopyByte? || t.StoreLen? || t.Publish? || t.CountDrop?
  }

  /** Shapes that every reachable state has, needed for the steps to make sense. */
  predicate Formed(s: State) {
    && |s.slots| == RING_SLOTS
    && (forall i :: 0 <= i < |s.slots| ==> |s.slots[i].buf| == SLOT_CAP && s.slots[i].len < SLOT_CAP)
    && (forall r :: r in s.emits ==> 0 < |s.emits[r].line| < SLOT_CAP)
    && (forall r :: r in s.emits && s.emits[r].phase.Filling? ==> s.emits[r].phase.copied <= |s.emits[r].line|)
  }

  function SetPhase(s: State, r: nat, phase: Phase): State
    requires r in s.emits
  {
    s.(emits := s.emits[r := s.emits[r].(phase := phase)])
  }

  function Apply(s: State, t: Step): State
    requires Formed(s) && Enabled(s, t)
  {
    var w := s.slots[Idx(s.tail)];
    match t
    case Reserve(line) =>
      s.(head := (s.head + 1) % TWO32,
         emits := s.emits[|s.lines| := Emit(line, s.head, Reserved)],
         lines := s.lines + [line])
    case LoadState(r) =>
      SetPhase(s, r, if s.slots[Idx(s.emits[r].h)].state == EmptySlot then SawEmpty else Dropping)
    case Claim(r) =>
      var i := Idx(s.emits[r].h);
      if s.slots[i].state == EmptySlot then
        SetPhase(s.(slots := s.slots[i := s.slots[i].(state := Claimed)], owner := s.owner[i := r]), r, Filling(0))
      else SetPhase(s, r, Dropping)
    case CopyByte(r) =>
      var i, k := Idx(s.emits[r].h), s.emits[r].phase.copied;
      var slot := s.slots[i];
      SetPhase(s.(slots := s.slots[i := slot.(buf := slot.buf[k := s.emits[r].line[k]])]), r, Filling(k + 1))
    case StoreLen(r) =>
      var i := Idx(s.emits[r].h);
      SetPhase(s.(slots := s.slots[i := s.slots[i].(len := |s.emits[r].line|)]), r, LenStored)
    case Publish(r) =>
      var i := Idx(s.emits[r].h);
      s.(slots := s.slots[i := s.slots[i].(state := Filled)], emits := s.emits - {r})
    case CountDrop(r) =>
      s.(gDropped := s.gDropped + 1, emits := s.emits - {r}, dropped := s.dropped + {r})
    case LoadHead => s.(writer := Draining(s.head))
    case LoadTailSlot =>
      if s.tail != s.writer.snap && w.state == Filled then s.(writer := Reading(s.writer.snap, []))
      else s.(writer := Checking)
    case ReadByte => s.(writer := s.writer.(acc := s.writer.acc + [w.buf[|s.writer.acc|]]))
    case WriteSink =>
      var i := Idx(s.tail);
      s.(writer := Wrote(s.writer.snap), sink := s.sink + [s.writer.acc],
         written := s.written + (if i in s.owner then [s.owner[i]] else []), owner := s.owner - {i})
    case StoreEmpty =>
      s.(writer := Emptied(s.writer.snap), slots := s.slots[Idx(s.tail) := w.(state := EmptySlot)])
    case AdvanceTail =>
      s.(writer := Draining(s.writer.snap), tail := (s.tail + 1) % TWO32, tailMoves := s.tailMoves + 1)
    case LoadDropped =>
      if s.gDropped > 0 then s.(writer := Reporting(s.gDropped)) else s.(writer := Scanning)
    case ReportDropped =>
      if s.gDropped == s.writer.seen then
        s.(writer := Scanning, gDropped := 0, reported := s.reported + s.writer.seen)
      else s.(writer := Scanning)
  }

  // ---------------------------------------------------------------------------
  // The invariant
  // ---------------------------------------------------------------------------

  /** Counters against history. */
  ghost predicate Counted(s: State) {
    && s.head == |s.lines| % TWO32
    && s.tail == s.tailMoves % TWO32
    && s.gDropped + s.reported == |s.dropped|
  }

  /** Each call in flight knows its line and slot; the ones past the claim own their slot. */
  ghost predicate EmitOk(s: State, r: nat)
    requires Formed(s) && r in s.emits
  {
    var e := s.emits[r];
    && r < |s.lines| && e.line == s.lines[r] && Idx(e.h) == Idx(r)
    && match e.phase
       case Filling(k) => Owns(s, r) && s.slots[Idx(r)].state == Claimed && s.slots[Idx(r)].buf[..k] == e.line[..k]
       case LenStored =>
         Owns(s, r) && s.slots[Idx(r)].state == Claimed
         && s.slots[Idx(r)].len == |e.line| && s.slots[Idx(r)].buf[..|e.line|] == e.line
       case _ => !Owns(s, r)
  }

  ghost predicate Owns(s: State, r: nat) {
    Idx(r) in s.owner && s.owner[Idx(r)] == r
  }

  /** The writer has put the slot's line out but not yet released the slot. */
  predicate Releasing(s: State, i: nat) {
    s.writer.Wrote? && i == Idx(s.tail)
  }

  ghost predicate SlotOk(s: State, i: nat)
    requires Formed(s) && i < RING_SLOTS
  {
    var slot := s.slots[i];
    && (slot.state == EmptySlot <==> i !in s.owner && !Releasing(s, i))
    && (Releasing(s, i) ==> slot.state == Filled && i !in s.owner)
    && (i in s.owner ==>
          var r := s.owner[i];
          && Idx(r) == i && r < |s.lines|
          && (slot.state == Claimed <==> r in s.emits)
          && (slot.state == Filled ==> slot.buf[..slot.len] == s.lines[r]))
  }

  /** Reservation `r` has exactly one fate. */
  ghost predicate Accounted(s: State, r: nat) {
    var inFlight, lost, done := r in s.emits, r in s.dropped, r in s.written;
    var buffered := Owns(s, r) && !inFlight;
    && (inFlight || lost || done || buffered)
    && (inFlight ==> !lost && !done)
    && (lost ==> !done)
    && (Owns(s, r) ==> !lost && !done)
  }

  ghost predicate History(s: State) {
    && (forall r :: 0 <= r < |s.lines| ==> Accounted(s, r))
    && (forall r :: r in s.dropped ==> 0 <= r < |s.lines|)
    && (forall k :: 0 <= k < |s.written| ==> 0 <= s.written[k] < |s.lines|)
    && (forall j, k :: 0 <= j < k < |s.written| ==> s.written[j] != s.written[k])
    && |s.sink| == |s.written|
    && (forall k :: 0 <= k < |s.sink| ==> s.sink[k] == s.lines[s.written[k]])
  }

  ghost predicate WriterOk(s: State)
    requires Formed(s)
  {
    var i := Idx(s.tail);
    s.writer.Reading? ==>
      && i in s.owner && s.slots[i].state == Filled
      && |s.writer.acc| <= s.slots[i].len && s.writer.acc == s.slots[i].buf[..|s.writer.acc|]
  }

  ghost predicate Safe(s: State) {
    && Formed(s) && Counted(s) && History(s) && WriterOk(s)
    && (forall r :: r in s.emits ==> EmitOk(s, r))
    && (forall i :: 0 <= i < RING_SLOTS ==> SlotOk(s, i))
  }

  lemma InitSlot(i: nat)
    requires i < RING_SLOTS
    ensures Init().slots[i].state == EmptySlot && Init().slots[i].len == 0 && |Init().slots[i].buf| == SLOT_CAP
  {
  }

  lemma InitFormed()
    ensures Formed(Init()) && Counted(Init()) && History(Init()) && WriterOk(Init())
  {
    hide Idx;
    forall i: nat | i < RING_SLOTS
      ensures Init().slots[i].len < SLOT_CAP && |Init().slots[i].buf| == SLOT_CAP
    {
      InitSlot(i);
    }
  }

  lemma InitSafe()
    ensures Safe(Init())
  {
    hide Idx, Formed, Counted, History, WriterOk;
    InitFormed();
    var s := Init();
    forall i: nat | i < RING_SLOTS
      ensures SlotOk(s, i)
    {
      InitSlot(i);
    }
  }

  /** The 32-bit cursor and the reservation number select the same slot. */
  lemma IdxWraps(n: nat)
    ensures Idx(n % TWO32) == Idx(n)
  {
    var q := n / TWO32;
    assert n == q * TWO32 + n % TWO32 && q * TWO32 == RING_SLOTS * (q * 0x4_0000);
  }

  /** What the invariant says of the call and the slots a step touches. */
  lemma StepFacts(s: State, t: Step)
    requires Safe(s) && Enabled(s, t)
    ensures SlotOk(s, Idx(s.tail)) && Idx(s.head) == Idx(|s.lines|)
    ensures Idx(s.tail) in s.owner ==> Accounted(s, s.owner[Idx(s.tail)])
    ensures forall r: nat :: t in {LoadState(r), Claim(r), CopyByte(r), StoreLen(r), Publish(r), CountDrop(r)} ==>
                          r in s.emits && r < |s.lines| && EmitOk(s, r) && Accounted(s, r) && SlotOk(s, Idx(r))
  {
    IdxWraps(|s.lines|);
  }

  lemma AccountedKeptByProducer(s: State, t: Step, r: nat)
    requires ByProducer(t) && Safe(s) && Enabled(s, t) && r < |Apply(s, t).lines|
    ensures Accounted(Apply(s, t), r)
  {
    hide Idx, Counted;
    StepFacts(s, t);
    assert SlotOk(s, Idx(r));
    assert r < |s.lines| ==> Accounted(s, r);
    assert Formed(s) && WriterOk(s);
    hide Safe, History;
  }

  lemma AccountedKeptByWriter(s: State, t: Step, r: nat)
    requires !ByProducer(t) && Safe(s) && Enabled(s, t) && r < |Apply(s, t).lines|
    ensures Accounted(Apply(s, t), r)
  {
    hide Idx, Counted;
    StepFacts(s, t);
    assert SlotOk(s, Idx(r));
    assert r < |s.lines| ==> Accounted(s, r);
    assert Formed(s) && WriterOk(s);
    hide Safe, History;
  }

  lemma AccountedKept(s: State, t: Step, r: nat)
    requires Safe(s) && Enabled(s, t) && r < |Apply(s, t).lines|
    ensures Accounted(Apply(s, t), r)
  {
    hide *;
    if ByProducer(t) {
      AccountedKeptByProducer(s, t, r);
    } else {
      AccountedKeptByWriter(s, t, r);
    }
  }

  /** The call that takes the step. */
  lemma OwnEmitKept(s: State, t: Step, r: nat)
    requires ByProducer(t) && Safe(s) && Enabled(s, t) && Formed(Apply(s, t)) && r in Apply(s, t).emits
    requires if t.Reserve? then r == |s.lines| else r == t.r
    ensures EmitOk(Apply(s, t), r)
  {
    hide Idx, WriterOk, Counted, History, Accounted;
    StepFacts(s, t);
    assert SlotOk(s, Idx(r));
    assert r in s.emits ==> EmitOk(s, r);
    assert Formed(s);
    hide Safe;
  }

  /** A call that does not: its slot, if it owns one, is left alone. */
  lemma OtherEmitKept(s: State, t: Step, r: nat)
    requires ByProducer(t) && Safe(s) && Enabled(s, t) && Formed(Apply(s, t)) && r in Apply(s, t).emits
    requires if t.Reserve? then r != |s.lines| else r != t.r
    ensures EmitOk(Apply(s, t), r)
  {
    hide Idx, Counted, History, Accounted;
    StepFacts(s, t);
    assert SlotOk(s, Idx(r)) && EmitOk(s, r) && Formed(s) && WriterOk(s);
    hide Safe;
    var s' := Apply(s, t);
    assert s'.emits[r] == s.emits[r];
    assert Owns(s', r) == Owns(s, r);
    assert Owns(s, r) ==> s'.slots[Idx(r)] == s.slots[Idx(r)];
  }

  lemma EmitKeptByWriter(s: State, t: Step, r: nat)
    requires !ByProducer(t) && Safe(s) && Enabled(s, t) && Formed(Apply(s, t)) && r in Apply(s, t).emits
    ensures EmitOk(Apply(s, t), r)
  {
    hide Idx, Counted, History, Accounted;
    StepFacts(s, t);
    assert SlotOk(s, Idx(r)) && EmitOk(s, r) && Formed(s) && WriterOk(s);
    hide Safe;
    var s' := Apply(s, t);
    assert s'.emits[r] == s.emits[r];
    assert Owns(s', r) == Owns(s, r);
    assert Owns(s, r) ==> s'.slots[Idx(r)] == s.slots[Idx(r)];
  }

  lemma EmitKept(s: State, t: Step, r: nat)
    requires Safe(s) && Enabled(s, t) && Formed(Apply(s, t)) && r in Apply(s, t).emits
    ensures EmitOk(Apply(s, t), r)
  {
    hide EmitOk, Safe, Apply;
    if !ByProducer(t) {
      EmitKeptByWriter(s, t, r);
    } else if if t.Reserve? then r == |s.lines| else r == t.r {
      OwnEmitKept(s, t, r);
    } else {
      OtherEmitKept(s, t, r);
    }
  }

  /** A slot the step's call has not reserved is left alone. */
  lemma OtherSlotKept(s: State, t: Step, i: nat)
    requires ByProducer(t) && Safe(s) && Enabled(s, t) && Formed(Apply(s, t)) && i < RING_SLOTS
    requires !t.Reserve? ==> i != Idx(s.emits[t.r].h)
    ensures SlotOk(Apply(s, t), i)
  {
    hide Idx, Counted, History, Accounted;
    StepFacts(s, t);
    assert SlotOk(s, i) && Formed(s);
    hide Safe, WriterOk;
    var s' := Apply(s, t);
    assert s'.slots[i] == s.slots[i] && Releasing(s', i) == Releasing(s, i);
    assert i in s'.owner <==> i in s.owner;
    if i in s.owner {
      var r := s.owner[i];
      assert s'.owner[i] == r && s'.lines[r] == s.lines[r];
      assert r in s'.emits <==> r in s.emits;
    }
  }

  lemma OwnSlotKept(s: State, t: Step, i: nat)
    requires ByProducer(t) && Safe(s) && Enabled(s, t) && Formed(Apply(s, t)) && i < RING_SLOTS
    requires !t.Reserve? && i == Idx(s.emits[t.r].h)
    ensures SlotOk(Apply(s, t), i)
  {
    hide Idx, Counted, History, Accounted;
    StepFacts(s, t);
    assert SlotOk(s, i) && Formed(s) && EmitOk(s, t.r);
    hide Safe, WriterOk;
  }

  /** The writer leaves all slots but the one at the tail alone. */
  lemma SlotKeptByWriter(s: State, t: Step, i: nat)
    requires !ByProducer(t) && Safe(s) && Enabled(s, t) && Formed(Apply(s, t)) && i < RING_SLOTS && i != Idx(s.tail)
    ensures SlotOk(Apply(s, t), i)
  {
    hide Idx, Counted, History, Accounted;
    StepFacts(s, t);
    assert SlotOk(s, i) && Formed(s);
    hide Safe, WriterOk;
    var s' := Apply(s, t);
    assert s'.slots[i] == s.slots[i] && !Releasing(s, i) && !Releasing(s', i);
    assert i in s'.owner <==> i in s.owner;
    assert i in s.owner ==> s'.owner[i] == s.owner[i] && s'.lines == s.lines && s'.emits == s.emits;
  }

  lemma TailSlotKept(s: State, t: Step)
    requires !ByProducer(t) && Safe(s) && Enabled(s, t) && Formed(Apply(s, t))
    ensures SlotOk(Apply(s, t), Idx(s.tail))
  {
    hide Idx, Counted, History, Accounted;
    StepFacts(s, t);
    assert Formed(s) && WriterOk(s);
    hide Safe;
  }

  lemma SlotKept(s: State, t: Step, i: nat)
    requires Safe(s) && Enabled(s, t) && Formed(Apply(s, t)) && i < RING_SLOTS
    ensures SlotOk(Apply(s, t), i)
  {
    hide Safe, Apply, SlotOk, Formed, Idx;
    if !ByProducer(t) {
      if i == Idx(s.tail) { TailSlotKept(s, t); } else { SlotKeptByWriter(s, t, i); }
    } else if !t.Reserve? && i == Idx(s.emits[t.r].h) {
      OwnSlotKept(s, t, i);
    } else {
      OtherSlotKept(s, t, i);
    }
  }

  lemma FormedKept(s: State, t: Step)
    requires Formed(s) && Enabled(s, t)
    ensures Formed(Apply(s, t))
  {
    hide Idx;
  }

  lemma WrapSucc(n: nat)
    ensures (n % TWO32 + 1) % TWO32 == (n + 1) % TWO32
  {
  }

  /** What a step does to the counters. */
  lemma CounterEffect(s: State, t: Step)
    requires Formed(s) && Enabled(s, t)
    ensures var s' := Apply(s, t);
            && s'.head == (if t.Reserve? then (s.head + 1) % TWO32 else s.head)
            && |s'.lines| == |s.lines| + (if t.Reserve? then 1 else 0)
            && s'.tail == (if t.AdvanceTail? then (s.tail + 1) % TWO32 else s.tail)
            && s'.tailMoves == s.tailMoves + (if t.AdvanceTail? then 1 else 0)
            && s'.gDropped + s'.reported == s.gDropped + s.reported + (if t.CountDrop? then 1 else 0)
            && s'.dropped == (if t.CountDrop? then s.dropped + {t.r} else s.dropped)
  {
    hide Idx, Formed;
  }

  lemma CountedKept(s: State, t: Step)
    requires Safe(s) && Enabled(s, t)
    ensures Counted(Apply(s, t))
  {
    StepFacts(s, t);
    assert Formed(s) && Counted(s);
    assert t.CountDrop? ==> Accounted(s, t.r);
    CounterEffect(s, t);
    hide Safe, Apply, Idx, EmitOk, SlotOk, Formed;
    WrapSucc(|s.lines|);
    WrapSucc(s.tailMoves);
  }

  lemma WriterKept(s: State, t: Step)
    requires Safe(s) && Enabled(s, t) && Formed(Apply(s, t))
    ensures WriterOk(Apply(s, t))
  {
    hide Idx, Counted, History, Accounted;
    StepFacts(s, t);
    assert Formed(s) && WriterOk(s);
    hide Safe;
  }

  lemma HistoryKept(s: State, t: Step)
    requires Safe(s) && Enabled(s, t)
    ensures History(Apply(s, t))
  {
    hide Idx, Counted, EmitOk;
    StepFacts(s, t);
    assert Formed(s) && History(s) && WriterOk(s);
    if t.WriteSink? {
      var r := s.owner[Idx(s.tail)];
      assert r !in s.written && s.writer.acc == s.lines[r];
    }
    forall r | 0 <= r < |Apply(s, t).lines|
      ensures Accounted(Apply(s, t), r)
    {
      AccountedKept(s, t, r);
    }
    hide Safe, Accounted;
  }

  lemma SafeStep(s: State, t: Step)
    requires Safe(s) && Enabled(s, t)
    ensures Safe(Apply(s, t))
  {
    FormedKept(s, t);
    CountedKept(s, t);
    WriterKept(s, t);
    HistoryKept(s, t);
    hide History, Formed, Counted, WriterOk, EmitOk, SlotOk, Apply;
    forall r | r in Apply(s, t).emits
      ensures EmitOk(Apply(s, t), r)
    {
      EmitKept(s, t, r);
    }
    forall i | 0 <= i < RING_SLOTS
      ensures SlotOk(Apply(s, t), i)
    {
      SlotKept(s, t, i);
    }
  }
}
