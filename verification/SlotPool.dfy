/** The frame-slot pool between the readers and the decode worker (apps/thinclient/main.c). */
module SlotPool {
  import opened Words

  const FRAME_SLOTS: nat := 512
  const NEVER: nat := 0xFFFF_FFFF_FFFF_FFFF

  datatype SlotState = Free | Ready | Decoding | Writing

  /** `frame` is the content frame index given at publication. */
  datatype Slot = Slot(state: SlotState, deadline: u64, frame: nat)

  type Slots = seq<Slot>

  // ---------------------------------------------------------------------------
  // The operations as functions
  // ---------------------------------------------------------------------------

  function FirstFree(slots: Slots, i: nat := 0): (k: nat)
    requires i <= |slots|
    ensures i <= k <= |slots|
    ensures k < |slots| ==> slots[k].state == Free
    ensures forall j :: i <= j < k ==> slots[j].state != Free
    decreases |slots| - i
  {
    if i == |slots| || slots[i].state == Free then i else FirstFree(slots, i + 1)
  }

  /** The earliest deadline among the ready slots; ties go to the lowest index. */
  ghost predicate IsPick(slots: Slots, k: nat) {
    && k < |slots| && slots[k].state == Ready && slots[k].deadline < NEVER
    && forall j :: 0 <= j < |slots| && slots[j].state == Ready ==>
                     slots[k].deadline < slots[j].deadline || (slots[k].deadline == slots[j].deadline && k <= j)
  }

  function Clamp(d: int): nat {
    if d < 0 then 0 else d
  }

  /** No deadline leaves the unsigned 64-bit range when shifted. */
  predicate Shiftable(slots: Slots, delta: int) {
    forall i :: 0 <= i < |slots| && slots[i].state != Free ==> slots[i].deadline + delta <= NEVER
  }

  function Shifted(slots: Slots, delta: int): (r: Slots)
    requires Shiftable(slots, delta)
    ensures |r| == |slots|
    ensures forall i :: 0 <= i < |r| ==>
                          r[i] == if slots[i].state == Free then slots[i]
                                  else slots[i].(deadline := Clamp(slots[i].deadline + delta))
  {
    seq(|slots|, i requires 0 <= i < |slots| =>
      if slots[i].state != Free then slots[i].(deadline := Clamp(slots[i].deadline + delta)) else slots[i])
  }

  // ---------------------------------------------------------------------------
  // The code; every method is one critical section
  // ---------------------------------------------------------------------------

  class FramePool {
    const frames: array<Slot>

    constructor ()
      ensures fresh(frames) && frames.Length == FRAME_SLOTS
      ensures forall i :: 0 <= i < FRAME_SLOTS ==> frames[i] == Slot(Free, 0, 0)
    {
      frames := new Slot[FRAME_SLOTS](_ => Slot(Free, 0, 0));
    }

    /** `slot_take_write`; `None` is where the code waits for a slot to be released. */
    method TakeWrite() returns (r: Option<nat>)
      modifies frames
      ensures var k := FirstFree(old(frames[..]));
              if k == frames.Length then r == None && frames[..] == old(frames[..])
              else r == Some(k) && frames[..] == old(frames[..])[k := old(frames[k]).(state := Writing)]
    {
      var i := 0;
      while i < frames.Length
        invariant i <= frames.Length && frames[..] == old(frames[..])
        invariant FirstFree(old(frames[..])) == FirstFree(old(frames[..]), i)
      {
        if frames[i].state == Free {
          frames[i] := frames[i].(state := Writing);
          return Some(i);
        }
        i := i + 1;
      }
      r := None;
    }

    method Publish(i: nat, deadline: u64, frame: nat)
      requires i < frames.Length
      modifies frames
      ensures frames[..] == old(frames[..])[i := Slot(Ready, deadline, frame)]
    {
      frames[i] := Slot(Ready, deadline, frame);
    }

    /** The decode worker's scan; `None` is where it waits for a publication. */
    method Pick() returns (r: Option<nat>)
      ensures r.Some? ==> IsPick(frames[..], r.value)
      ensures r.None? ==> forall j :: 0 <= j < frames.Length ==>
                !(frames[j].state == Ready && frames[j].deadline < NEVER)
    {
      var best: u64 := NEVER;
      r := None;
      for i := 0 to frames.Length
        invariant r.Some? ==> best < NEVER && r.value < i && IsPick(frames[..i], r.value)
        invariant r.Some? ==> frames[r.value].deadline == best
        invariant r.None? ==> best == NEVER
        invariant r.None? ==> forall j :: 0 <= j < i ==> !(frames[j].state == Ready && frames[j].deadline < NEVER)
      {
        if frames[i].state == Ready && frames[i].deadline < best {
          best := frames[i].deadline;
          r := Some(i);
        }
      }
      assert frames[..frames.Length] == frames[..];
    }

    method MarkDecoding(i: nat)
      requires i < frames.Length
      modifies frames
      ensures frames[..] == old(frames[..])[i := old(frames[i]).(state := Decoding)]
    {
      frames[i] := frames[i].(state := Decoding);
    }

    method Release(i: nat)
      requires i < frames.Length
      modifies frames
      ensures frames[..] == old(frames[..])[i := old(frames[i]).(state := Free)]
    {
      frames[i] := frames[i].(state := Free);
    }

    /** The deadline loop of `dash_resync`. */
    method Resync(delta: int)
      requires Shiftable(frames[..], delta)
      modifies frames
      ensures frames[..] == Shifted(old(frames[..]), delta)
    {
      ghost var goal := Shifted(frames[..], delta);
      for i := 0 to frames.Length
        invariant forall j :: 0 <= j < i ==> frames[j] == goal[j]
        invariant forall j :: i <= j < frames.Length ==> frames[j] == old(frames[..])[j]
      {
        if frames[i].state != Free {
          var d: int := frames[i].deadline + delta;
          if d < 0 { d := 0; }
          frames[i] := frames[i].(deadline := d);
        }
      }
    }
  }

  // ---------------------------------------------------------------------------
  // Runs: writers, the decode worker and the resync interleaved
  // ---------------------------------------------------------------------------

  /** The decode worker first picks a slot and marks it in a later critical section. */
  datatype Worker = Idle | Picked(i: nat) | Working(i: nat)

  /** `published` counts publications, `last` is the deadline of the latest one as shifted since, and
      `decoded` lists the frames in the order they went to the decoder. */
  datatype State = State(slots: Slots, worker: Worker, published: nat, last: int, decoded: seq<nat>)

  datatype Step =
    | Take
    | Put(i: nat, deadline: u64)
    | Abandon(i: nat)
    | PickSlot(i: nat)
    | Mark
    | Finish
    | Shift(delta: int)

  /** The step can be taken. */
  ghost predicate Possible(s: State, t: Step) {
    match t
    case Take => FirstFree(s.slots) < |s.slots|
    case Put(i, deadline) => i < |s.slots| && s.slots[i].state == Writing
    case Abandon(i) => i < |s.slots| && s.slots[i].state == Writing
    case PickSlot(i) => s.worker.Idle? && IsPick(s.slots, i)
    case Mark => s.worker.Picked?
    case Finish => s.worker.Working?
    case Shift(delta) => Shiftable(s.slots, delta)
  }

  /** A ready slot that the worker has not yet decided on. */
  predicate Open(s: State, i: nat) {
    IsReady(s, i) && s.worker != Picked(i)
  }

  /** How the pick ranks two slots: by deadline, then by index. */
  predicate Precedes(d: int, i: nat, d': int, i': nat) {
    d < d' || (d == d' && i < i')
  }

  /** A publication ranks behind every open slot, and a resync shift clamps no two open slots to zero
      whose frames are not in slot order. */
  ghost predicate Ordered(s: State, t: Step) {
    match t
    case Put(i, deadline) =>
      forall j: nat :: Open(s, j) ==> Precedes(s.slots[j].deadline, j, deadline, i)
    case Shift(delta) =>
      forall i: nat, j: nat ::
        Open(s, i) && Open(s, j) && s.slots[i].frame < s.slots[j].frame && s.slots[j].deadline + delta <= 0 ==> i < j
    case _ => true
  }

  /** The scan cannot find a slot whose deadline is the largest number. */
  ghost predicate AllFindable(s: State) {
    forall i: nat :: IsReady(s, i) ==> s.slots[i].deadline < NEVER
  }

  ghost predicate Enabled(s: State, t: Step) {
    InRange(s) && Possible(s, t) && Ordered(s, t) && AllFindable(Apply(s, t))
  }

  predicate InRange(s: State) {
    |s.slots| == FRAME_SLOTS && (s.worker.Picked? || s.worker.Working? ==> s.worker.i < FRAME_SLOTS)
  }

  function SetState(slots: Slots, i: nat, st: SlotState): Slots
    requires i < |slots|
  {
    slots[i := slots[i].(state := st)]
  }

  ghost function Apply(s: State, t: Step): State
    requires InRange(s) && Possible(s, t)
  {
    match t
    case Take => s.(slots := SetState(s.slots, FirstFree(s.slots), Writing))
    case Put(i, deadline) =>
      s.(slots := s.slots[i := Slot(Ready, deadline, s.published)], published := s.published + 1, last := deadline)
    case Abandon(i) => s.(slots := SetState(s.slots, i, Free))
    case PickSlot(i) => s.(worker := Picked(i))
    case Mark =>
      s.(slots := SetState(s.slots, s.worker.i, Decoding), worker := Working(s.worker.i),
         decoded := s.decoded + [s.slots[s.worker.i].frame])
    case Finish => s.(slots := SetState(s.slots, s.worker.i, Free), worker := Idle)
    case Shift(delta) => s.(slots := Shifted(s.slots, delta), last := s.last + delta)
  }

  predicate IsReady(s: State, i: nat) {
    i < |s.slots| && s.slots[i].state == Ready
  }

  /** Frame `f` waits in some slot. */
  ghost predicate Waiting(s: State, f: nat) {
    exists i: nat :: IsReady(s, i) && s.slots[i].frame == f
  }

  /** Two ready slots hold different frames, and the pick ranks the open ones by frame. */
  ghost predicate InOrder(s: State, i: nat, j: nat) {
    && (IsReady(s, i) && IsReady(s, j) && i != j ==> s.slots[i].frame != s.slots[j].frame)
    && (Open(s, i) && Open(s, j) && s.slots[i].frame < s.slots[j].frame ==>
          Precedes(s.slots[i].deadline, i, s.slots[j].deadline, j))
  }

  ghost predicate SlotOk(s: State, i: nat)
    requires i < |s.slots|
  {
    && (s.slots[i].state == Ready ==> |s.decoded| <= s.slots[i].frame < s.published)
    && (s.slots[i].state == Decoding <==> s.worker == Working(i))
  }

  predicate InSequence(frames: seq<nat>) {
    forall k :: 0 <= k < |frames| ==> frames[k] == k
  }

  /** The ready slots hold exactly the frames published and not yet decoded, each in one slot and ranked
      in publication order; a slot is decoding only while the worker has it. */
  ghost predicate Inv(s: State) {
    && InRange(s) && AllFindable(s)
    && |s.decoded| <= s.published && InSequence(s.decoded)
    && (forall i: nat :: i < |s.slots| ==> SlotOk(s, i))
    && (forall i: nat, j: nat :: i < |s.slots| && j < |s.slots| ==> InOrder(s, i, j))
    && (forall f: nat :: |s.decoded| <= f < s.published ==> Waiting(s, f))
    && (s.worker.Picked? ==> IsReady(s, s.worker.i) && s.slots[s.worker.i].frame == |s.decoded|)
  }

  /** What the worker picks is the oldest frame not yet decoded. */
  lemma PickIsOldest(s: State, i: nat)
    requires Inv(s) && s.worker.Idle? && IsPick(s.slots, i)
    ensures s.slots[i].frame == |s.decoded|
  {
    assert SlotOk(s, i);
    assert Waiting(s, |s.decoded|);
    var j: nat :| IsReady(s, j) && s.slots[j].frame == |s.decoded|;
    assert InOrder(s, j, i);
  }

  lemma StepFacts(s: State, t: Step)
    requires Inv(s) && Enabled(s, t)
    ensures t.PickSlot? ==> IsReady(s, t.i) && s.slots[t.i].frame == |s.decoded|
    ensures !s.worker.Idle? ==> SlotOk(s, s.worker.i)
    ensures t.Mark? ==> |s.decoded| < s.published
  {
    if t.PickSlot? { PickIsOldest(s, t.i); }
    if !s.worker.Idle? { assert SlotOk(s, s.worker.i); }
  }

  lemma SlotKept(s: State, t: Step, i: nat)
    requires Inv(s) && Enabled(s, t) && i < |s.slots|
    ensures SlotOk(Apply(s, t), i)
  {
    StepFacts(s, t);
    assert SlotOk(s, i);
    if t.Mark? { assert InOrder(s, i, s.worker.i); }
  }

  lemma OrderKept(s: State, t: Step, i: nat, j: nat)
    requires Inv(s) && Enabled(s, t) && i < |s.slots| && j < |s.slots|
    ensures InOrder(Apply(s, t), i, j)
  {
    StepFacts(s, t);
    assert SlotOk(s, i) && SlotOk(s, j);
    assert InOrder(s, i, j);
    assert Open(Apply(s, t), i) && !(t.Put? && t.i == i) ==> Open(s, i);
    assert Open(Apply(s, t), j) && !(t.Put? && t.i == j) ==> Open(s, j);
  }

  lemma WaitingKept(s: State, t: Step, f: nat)
    requires Inv(s) && Enabled(s, t)
    requires var s' := Apply(s, t); |s'.decoded| <= f < s'.published
    ensures Waiting(Apply(s, t), f)
  {
    StepFacts(s, t);
    var s' := Apply(s, t);
    if t.Put? && f == s.published {
      assert IsReady(s', t.i);
    } else {
      assert Waiting(s, f);
      var i: nat :| IsReady(s, i) && s.slots[i].frame == f;
      assert SlotOk(s, i);
      assert IsReady(s', i) && s'.slots[i].frame == f;
    }
  }

  lemma InvStep(s: State, t: Step)
    requires Inv(s) && Enabled(s, t)
    ensures Inv(Apply(s, t))
  {
    hide SlotOk, InOrder, Waiting;
    StepFacts(s, t);
    var s' := Apply(s, t);
    forall i: nat | i < |s.slots|
      ensures SlotOk(s', i)
    {
      SlotKept(s, t, i);
    }
    forall i: nat, j: nat | i < |s.slots| && j < |s.slots|
      ensures InOrder(s', i, j)
    {
      OrderKept(s, t, i, j);
    }
    forall f: nat | |s'.decoded| <= f < s'.published
      ensures Waiting(s', f)
    {
      WaitingKept(s, t, f);
    }
  }

  // ---------------------------------------------------------------------------
  // Runs
  // ---------------------------------------------------------------------------

  function Start(): State {
    State(seq(FRAME_SLOTS, _ => Slot(Free, 0, 0)), Idle, 0, -1, [])
  }

  /** The state after a sequence of possible steps, ordered or not. */
  ghost function ExecFrom(s: State, ts: seq<Step>): (r: Option<State>)
    requires InRange(s)
    ensures r.Some? ==> InRange(r.value)
  {
    if ts == [] then Some(s)
    else
      var before := ExecFrom(s, ts[..|ts| - 1]);
      if before.Some? && Possible(before.value, ts[|ts| - 1]) then Some(Apply(before.value, ts[|ts| - 1])) else None
  }

  ghost function Exec(ts: seq<Step>): (r: Option<State>)
    ensures r.Some? ==> InRange(r.value)
  {
    ExecFrom(Start(), ts)
  }

  /** Every step of the run keeps the ranking. */
  ghost predicate AlwaysOrdered(s: State, ts: seq<Step>)
    requires InRange(s)
  {
    forall k :: 0 <= k < |ts| && ExecFrom(s, ts[..k]).Some? && Possible(ExecFrom(s, ts[..k]).value, ts[k]) ==>
                  Enabled(ExecFrom(s, ts[..k]).value, ts[k])
  }

  lemma {:induction false} RunInv(s: State, ts: seq<Step>)
    requires Inv(s) && ExecFrom(s, ts).Some? && AlwaysOrdered(s, ts)
    ensures Inv(ExecFrom(s, ts).value)
  {
    assert InRange(s);
    hide Inv, Ordered, Possible, Apply, Enabled;
    if ts != [] {
      var n := |ts| - 1;
      assert forall k :: 0 <= k < n ==> ts[..n][..k] == ts[..k];
      RunInv(s, ts[..n]);
      InvStep(ExecFrom(s, ts[..n]).value, ts[n]);
    }
  }

  lemma StartInv()
    ensures Inv(Start())
  {
  }

  /** In every run the frames go to the decoder in the order they were published, none skipped and none
      twice, and the slot being decoded is never one a writer has or may get. */
  lemma DecodedInOrder(ts: seq<Step>)
    requires Exec(ts).Some? && AlwaysOrdered(Start(), ts)
    ensures var s := Exec(ts).value;
            && |s.decoded| <= s.published && InSequence(s.decoded)
            && (s.worker.Working? ==> s.worker.i < |s.slots| && s.slots[s.worker.i].state == Decoding)
            && (forall i: nat :: i < |s.slots| && s.slots[i].state == Decoding ==> s.worker == Working(i))
  {
    hide ExecFrom, AlwaysOrdered;
    StartInv();
    RunInv(Start(), ts);
    var s := Exec(ts).value;
    forall i: nat | i < |s.slots|
      ensures s.slots[i].state == Decoding <==> s.worker == Working(i)
    {
      assert SlotOk(s, i);
    }
  }

  // ---------------------------------------------------------------------------
  // Strictly increasing deadlines
  // ---------------------------------------------------------------------------

  /** The publication's deadline lies after the latest one as shifted since, or the shift takes no
      waiting frame's deadline below zero or to the end of the clock. */
  ghost predicate Increasing(s: State, t: Step) {
    match t
    case Put(i, deadline) => s.last < deadline < NEVER
    case Shift(delta) => forall i: nat :: IsReady(s, i) ==> 0 <= s.slots[i].deadline + delta < NEVER
    case _ => true
  }

  ghost predicate UpToLast(s: State) {
    forall i: nat :: IsReady(s, i) ==> s.slots[i].deadline <= s.last
  }

  lemma IncreasingIsOrdered(s: State, t: Step)
    requires Inv(s) && UpToLast(s) && Possible(s, t) && Increasing(s, t)
    ensures Enabled(s, t) && UpToLast(Apply(s, t))
  {
    hide Waiting, SlotOk;
    var s' := Apply(s, t);
    forall i: nat | IsReady(s', i)
      ensures s'.slots[i].deadline < NEVER && s'.slots[i].deadline <= s'.last
    {
      assert (t.Put? && t.i == i) || IsReady(s, i);
    }
    if t.Shift? {
      forall i: nat, j: nat
        | Open(s, i) && Open(s, j) && s.slots[i].frame < s.slots[j].frame && s.slots[j].deadline + t.delta <= 0
        ensures i < j
      {
        assert InOrder(s, i, j);
      }
    }
  }

  ghost predicate AlwaysIncreasing(ts: seq<Step>) {
    forall k :: 0 <= k < |ts| && Exec(ts[..k]).Some? ==> Increasing(Exec(ts[..k]).value, ts[k])
  }

  lemma {:induction false} IncreasingRun(ts: seq<Step>)
    requires Exec(ts).Some? && AlwaysIncreasing(ts)
    ensures Inv(Exec(ts).value) && UpToLast(Exec(ts).value)
    ensures AlwaysOrdered(Start(), ts)
  {
    hide Inv, Increasing, Possible, Apply, Enabled, UpToLast;
    if ts == [] {
      StartInv();
      StartUpToLast();
    } else {
      var n := |ts| - 1;
      var before := ts[..n];
      assert forall k :: 0 <= k < n ==> before[..k] == ts[..k];
      IncreasingRun(before);
      IncreasingIsOrdered(Exec(before).value, ts[n]);
      InvStep(Exec(before).value, ts[n]);
      assert forall k :: 0 <= k < n ==> before[k] == ts[k];
    }
  }

  lemma StartUpToLast()
    ensures UpToLast(Start())
  {
  }

  // ---------------------------------------------------------------------------
  // Order is kept exactly by the ordered steps
  // ---------------------------------------------------------------------------

  /** Steps of the decode worker alone. */
  predicate ByWorker(ts: seq<Step>) {
    forall k :: 0 <= k < |ts| ==> ts[k].PickSlot? || ts[k].Mark? || ts[k].Finish?
  }

  /** Whatever the worker does next, it decodes in sequence. */
  ghost predicate StaysInSequence(s: State)
    requires InRange(s)
  {
    forall ts :: ByWorker(ts) && ExecFrom(s, ts).Some? ==> InSequence(ExecFrom(s, ts).value.decoded)
  }

  lemma {:induction false} WorkerOrdered(s: State, ts: seq<Step>)
    requires Inv(s) && ByWorker(ts) && ExecFrom(s, ts).Some?
    ensures Inv(ExecFrom(s, ts).value)
  {
    assert InRange(s);
    hide Inv, Possible;
    if ts != [] {
      var n := |ts| - 1;
      WorkerOrdered(s, ts[..n]);
      WorkerEnabled(ExecFrom(s, ts[..n]).value, ts[n]);
      InvStep(ExecFrom(s, ts[..n]).value, ts[n]);
    }
  }

  lemma WorkerEnabled(s: State, t: Step)
    requires Inv(s) && Possible(s, t) && (t.PickSlot? || t.Mark? || t.Finish?)
    ensures Enabled(s, t)
  {
    forall i: nat | IsReady(Apply(s, t), i)
      ensures Apply(s, t).slots[i].deadline < NEVER
    {
      assert IsReady(s, i);
    }
  }

  /** Two open frames that the pick ranks the wrong way round, the worker idle and in sequence so far. */
  ghost predicate Swapped(s: State, i: nat, j: nat) {
    && InRange(s) && s.worker.Idle? && InSequence(s.decoded)
    && IsReady(s, i) && IsReady(s, j) && |s.decoded| <= s.slots[i].frame < s.slots[j].frame
    && s.slots[j].deadline < NEVER && Alone(s, i)
    && Precedes(s.slots[j].deadline, j, s.slots[i].deadline, i)
  }

  /** No other slot holds the same frame. */
  ghost predicate Alone(s: State, i: nat)
    requires i < |s.slots|
  {
    forall k: nat :: IsReady(s, k) && k != i ==> s.slots[k].frame != s.slots[i].frame
  }

  lemma {:induction false} PickExists(slots: Slots, n: nat) returns (k: nat)
    requires n <= |slots| && exists i :: 0 <= i < n && slots[i].state == Ready && slots[i].deadline < NEVER
    ensures IsPick(slots[..n], k)
  {
    var m := n - 1;
    assert forall i :: 0 <= i < m ==> slots[..n][i] == slots[..m][i];
    if exists i :: 0 <= i < m && slots[i].state == Ready && slots[i].deadline < NEVER {
      k := PickExists(slots, m);
      if slots[m].state == Ready && slots[m].deadline < slots[k].deadline { k := m; }
    } else {
      k := m;
    }
  }

  lemma ExecSnoc(s: State, ts: seq<Step>, t: Step)
    requires InRange(s) && ExecFrom(s, ts).Some? && Possible(ExecFrom(s, ts).value, t)
    ensures ExecFrom(s, ts + [t]) == Some(Apply(ExecFrom(s, ts).value, t))
  {
    assert (ts + [t])[..|ts|] == ts;
  }

  lemma ExecNothing(s: State)
    requires InRange(s)
    ensures ExecFrom(s, []) == Some(s)
  {
  }

  lemma {:induction false} ExecConcat(s: State, ts: seq<Step>, us: seq<Step>)
    requires InRange(s) && ExecFrom(s, ts).Some?
    ensures ExecFrom(s, ts + us) == ExecFrom(ExecFrom(s, ts).value, us)
  {
    if us == [] {
      assert ts + us == ts;
    } else {
      var n := |us| - 1;
      ExecConcat(s, ts, us[..n]);
      assert (ts + us)[..|ts + us| - 1] == ts + us[..n];
    }
  }

  /** One frame through the worker. */
  lemma DecodeOne(s: State, i: nat)
    requires InRange(s) && s.worker.Idle? && IsPick(s.slots, i)
    ensures var s' := s.(slots := SetState(SetState(s.slots, i, Decoding), i, Free),
              decoded := s.decoded + [s.slots[i].frame]);
            ExecFrom(s, [PickSlot(i), Mark, Finish]) == Some(s')
  {
    hide ExecFrom, IsPick;
    ExecNothing(s);
    ExecSnoc(s, [], PickSlot(i));
    assert [] + [PickSlot(i)] == [PickSlot(i)];
    ExecSnoc(s, [PickSlot(i)], Mark);
    assert [PickSlot(i)] + [Mark] == [PickSlot(i), Mark];
    ExecSnoc(s, [PickSlot(i), Mark], Finish);
    assert [PickSlot(i), Mark] + [Finish] == [PickSlot(i), Mark, Finish];
  }

  /** Then the worker, just by going on, decodes out of sequence. */
  lemma {:induction false} SwappedShows(s: State, i: nat, j: nat) returns (ts: seq<Step>)
    requires Swapped(s, i, j)
    ensures ByWorker(ts) && ExecFrom(s, ts).Some? && !InSequence(ExecFrom(s, ts).value.decoded)
    decreases s.slots[i].frame - |s.decoded|
  {
    hide ExecFrom;
    var k := PickExists(s.slots, |s.slots|);
    assert s.slots[..|s.slots|] == s.slots;
    ts := [PickSlot(k), Mark, Finish];
    DecodeOne(s, k);
    var s' := ExecFrom(s, ts).value;
    if s.slots[k].frame == |s.decoded| {
      assert k != i && k != j;
      assert forall l: nat :: IsReady(s', l) ==> IsReady(s, l) && s'.slots[l] == s.slots[l];
      assert s'.slots[i] == s.slots[i] && s'.slots[j] == s.slots[j];
      var more := SwappedShows(s', i, j);
      ExecConcat(s, ts, more);
      ts := ts + more;
    } else {
      assert s'.decoded[|s.decoded|] != |s.decoded|;
    }
  }

  /** The worker's current frame, if any, finishes first. */
  lemma WorkerIdles(s: State) returns (ts: seq<Step>)
    requires InRange(s) && InSequence(s.decoded) && |s.decoded| <= s.published
    requires s.worker.Picked? ==> s.slots[s.worker.i].frame == |s.decoded|
    ensures ByWorker(ts) && ExecFrom(s, ts).Some?
    ensures var s' := ExecFrom(s, ts).value;
            && s'.worker.Idle? && InSequence(s'.decoded)
            && |s'.decoded| == |s.decoded| + (if s.worker.Picked? then 1 else 0)
            && (forall i: nat :: i < |s.slots| && !(!s.worker.Idle? && s.worker.i == i) ==> s'.slots[i] == s.slots[i])
            && (!s.worker.Idle? ==> s'.slots[s.worker.i].state == Free)
  {
    hide ExecFrom;
    ExecNothing(s);
    ts := [];
    if s.worker.Picked? {
      ExecSnoc(s, [], Mark);
      ts := [] + [Mark];
    }
    if !s.worker.Idle? {
      ExecSnoc(s, ts, Finish);
      ts := ts + [Finish];
    }
  }

  /** From a state in order, a step keeps everything decoded in sequence, whatever the worker does
      afterwards, if and only if it is ordered. */
  lemma KeepsSequenceIff(s: State, t: Step)
    requires Inv(s) && Possible(s, t) && AllFindable(Apply(s, t))
    ensures StaysInSequence(Apply(s, t)) <==> Ordered(s, t)
  {
    var s' := Apply(s, t);
    if Ordered(s, t) {
      InvStep(s, t);
      forall ts | ByWorker(ts) && ExecFrom(s', ts).Some?
        ensures InSequence(ExecFrom(s', ts).value.decoded)
      {
        WorkerOrdered(s', ts);
      }
    } else {
      var i, j := Misranked(s, t);
      var ts := WorkerIdles(s');
      var idle := ExecFrom(s', ts).value;
      hide ExecFrom, Inv, Apply;
      assert forall k: nat :: IsReady(idle, k) ==> IsReady(s', k) && idle.slots[k] == s'.slots[k];
      var more := SwappedShows(idle, i, j);
      ExecConcat(s', ts, more);
      assert ByWorker(ts + more);
    }
  }

  /** The two frames an unordered step leaves in the wrong order. */
  lemma Misranked(s: State, t: Step) returns (i: nat, j: nat)
    requires Inv(s) && Possible(s, t) && AllFindable(Apply(s, t)) && !Ordered(s, t)
    ensures var s' := Apply(s, t);
            && Open(s', i) && Open(s', j) && s'.slots[i].frame < s'.slots[j].frame && s'.slots[j].deadline < NEVER
            && Precedes(s'.slots[j].deadline, j, s'.slots[i].deadline, i)
            && s'.worker == s.worker && s'.decoded == s.decoded && s'.published >= s.published
            && s'.slots[i].frame >= |s.decoded| + (if s.worker.Picked? then 1 else 0)
            && (s.worker.Picked? ==> s'.slots[s.worker.i].frame == |s.decoded|)
            && (s.worker.Working? ==> s.worker.i != i && s.worker.i != j)
            && Alone(s', i)
  {
    hide Waiting;
    var s' := Apply(s, t);
    if t.Put? {
      i :| Open(s, i) && !Precedes(s.slots[i].deadline, i, t.deadline, t.i);
      j := t.i;
    } else {
      i, j :| && Open(s, i) && Open(s, j) && s.slots[i].frame < s.slots[j].frame
              && s.slots[j].deadline + t.delta <= 0 && i >= j;
      assert InOrder(s, i, j);
    }
    assert SlotOk(s, i) && SlotOk(s, j);
    if s.worker.Picked? { assert InOrder(s, i, s.worker.i); }
    forall k: nat | IsReady(s', k) && k != i
      ensures s'.slots[k].frame != s'.slots[i].frame
    {
      assert k == j || IsReady(s, k);
      assert InOrder(s, i, k);
    }
  }

  // ---------------------------------------------------------------------------
  // A run of one writer without increasing deadlines
  // ---------------------------------------------------------------------------

  function PublishTwo(d0: u64, d1: u64): seq<Step> {
    [Take, Put(0, d0), Take, Put(1, d1)]
  }

  function ReuseFirst(d0: u64, d1: u64, d2: u64): seq<Step> {
    PublishTwo(d0, d1) + [PickSlot(0), Mark, Finish] + [Take, Put(0, d2)]
  }

  /** Two slots hold these frames with these deadlines, everything else is free. */
  ghost predicate Pair(s: State, d0: u64, f0: nat, d1: u64, f1: nat) {
    && InRange(s) && s.worker == Idle
    && s.slots[0] == Slot(Ready, d0, f0) && s.slots[1] == Slot(Ready, d1, f1)
    && (forall i :: 2 <= i < FRAME_SLOTS ==> s.slots[i].state == Free)
  }

  /** One frame taken and published by a writer. */
  lemma PublishOne(s: State, i: nat, d: u64)
    requires InRange(s) && i < FRAME_SLOTS && FirstFree(s.slots) == i
    ensures ExecFrom(s, [Take, Put(i, d)])
         == Some(s.(slots := s.slots[i := Slot(Ready, d, s.published)], published := s.published + 1, last := d))
  {
    hide ExecFrom;
    ExecNothing(s);
    ExecSnoc(s, [], Take);
    assert [] + [Take] == [Take];
    ExecSnoc(s, [Take], Put(i, d));
    assert [Take] + [Put(i, d)] == [Take, Put(i, d)];
    var done := Slot(Ready, d, s.published);
    assert SetState(s.slots, i, Writing)[i := done] == s.slots[i := done];
  }

  lemma TwoPublished(d0: u64, d1: u64)
    ensures Exec(PublishTwo(d0, d1)).Some?
    ensures var s := Exec(PublishTwo(d0, d1)).value; Pair(s, d0, 0, d1, 1) && s.published == 2 && s.decoded == []
  {
    hide ExecFrom;
    var s := Start();
    PublishOne(s, 0, d0);
    var a := [Take, Put(0, d0)];
    assert FirstFree(ExecFrom(s, a).value.slots) == 1;
    PublishOne(ExecFrom(s, a).value, 1, d1);
    ExecConcat(s, a, [Take, Put(1, d1)]);
    assert a + [Take, Put(1, d1)] == PublishTwo(d0, d1);
  }

  lemma FirstReused(d0: u64, d1: u64, d2: u64)
    requires d0 <= d1 && d0 < NEVER
    ensures Exec(ReuseFirst(d0, d1, d2)).Some?
    ensures var s := Exec(ReuseFirst(d0, d1, d2)).value; Pair(s, d2, 2, d1, 1) && s.published == 3 && s.decoded == [0]
  {
    hide ExecFrom;
    TwoPublished(d0, d1);
    var a := PublishTwo(d0, d1);
    var s := Exec(a).value;
    DecodeOne(s, 0);
    var played := [PickSlot(0), Mark, Finish];
    ExecConcat(Start(), a, played);
    var s' := Exec(a + played).value;
    assert FirstFree(s'.slots) == 0;
    PublishOne(s', 0, d2);
    ExecConcat(Start(), a + played, [Take, Put(0, d2)]);
  }

  /** A single writer suffices, as soon as one deadline is not later than the one before: frames 0 and 1
      are published, 0 is decoded and its slot reused for frame 2, which then goes to the decoder before
      frame 1. The UDP path publishes every frame with deadline 0. */
  lemma Reorders(d0: u64, d1: u64, d2: u64) returns (ts: seq<Step>)
    requires d0 <= d1 && d2 <= d1 && d0 < NEVER && d2 < NEVER
    ensures ts == ReuseFirst(d0, d1, d2) + [PickSlot(0), Mark, Finish]
    ensures Exec(ts).Some? && Exec(ts).value.decoded == [0, 2]
  {
    hide ExecFrom;
    FirstReused(d0, d1, d2);
    var a := ReuseFirst(d0, d1, d2);
    DecodeOne(Exec(a).value, 0);
    ts := a + [PickSlot(0), Mark, Finish];
    ExecConcat(Start(), a, [PickSlot(0), Mark, Finish]);
  }
}
