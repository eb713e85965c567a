/** The scanout bookkeeping without its calls being atomic (src/video/drm_scanout.c): the decode worker looks
    for a buffer read by read while the present worker submits flips and handles their events write by
    write, and the kernel completes flips at any time. */
module ScanoutSteps {
  import opened Words
  import S = Scanout

  // ---------------------------------------------------------------------------
  // State
  // ---------------------------------------------------------------------------

  /** Where `vmc_drm_scanout_next_idx` stands with candidate `i`: before its read of `on_screen`, of
      `flip_pending`, or before it takes the buffer. */
  datatype Decoder = Looking | AtShown(i: nat) | AtPending(i: nat) | AtTake(i: nat)

  /** Where the present worker stands: in `vmc_drm_scanout_present` after the kernel accepted flip `i`, or
      in `flip_handler` with record `i`. */
  datatype Presenter =
    | Ready
    | Marking(i: nat)
    | Pending(i: nat)
    | Recording(i: nat)
    | Freeing(i: nat)
    | Showing(i: nat)
    | Clearing

  /** The shared fields, the flip history, and the truth: the buffer scanned out, the flip the kernel has
      accepted, its events not yet handled, the buffers handed out, and those given up. */
  datatype State = State(
    busy: seq<bool>, onScreen: nat, flipPending: int, history: seq<nat>,
    displayed: nat, kernel: Option<nat>, events: seq<nat>, held: set<nat>, lost: set<nat>,
    decoder: Decoder, presenter: Presenter)

  function Start(n: nat): State {
    State(seq(n, _ => false), 0, -1, [], 0, None, [], {}, {}, Looking, Ready)
  }

  datatype Step =
    | ReadBusy(i: nat)
    | ReadShown
    | ReadPending
    | Take
    | Submit(i: nat)
    | GiveUp(i: nat)
    | MarkBusy
    | SetPending
    | Record
    | Complete
    | TakeEvent
    | FreeOld
    | ShowNew
    | ClearPending

  /** The kernel keeps at most one flip outstanding, but takes the next one before the event of the last has
      been handled; the present worker drains events often enough for the history ring. */
  predicate Enabled(s: State, t: Step) {
    match t
    case ReadBusy(i) => s.decoder.Looking? && i < |s.busy|
    case ReadShown => s.decoder.AtShown?
    case ReadPending => s.decoder.AtPending?
    case Take => s.decoder.AtTake?
    case Submit(i) => s.presenter.Ready? && i in s.held && s.kernel.None? && |s.history| < S.HISTORY - 1
    case GiveUp(i) => s.presenter.Ready? && i in s.held
    case MarkBusy => s.presenter.Marking?
    case SetPending => s.presenter.Pending?
    case Record => s.presenter.Recording?
    case Complete => s.kernel.Some?
    case TakeEvent => s.presenter.Ready? && s.events != [] && s.history != []
    case FreeOld => s.presenter.Freeing?
    case ShowNew => s.presenter.Showing?
    case ClearPending => s.presenter.Clearing?
  }

  predicate InRange(s: State) {
    && s.onScreen < |s.busy|
    && (!s.decoder.Looking? ==> s.decoder.i < |s.busy|)
    && (!s.presenter.Ready? && !s.presenter.Clearing? ==> s.presenter.i < |s.busy|)
  }

  function Apply(s: State, t: Step): State
    requires InRange(s) && Enabled(s, t)
  {
    match t
    case ReadBusy(i) => s.(decoder := if s.busy[i] then Looking else AtShown(i))
    case ReadShown => s.(decoder := if s.decoder.i == s.onScreen then Looking else AtPending(s.decoder.i))
    case ReadPending => s.(decoder := if s.decoder.i == s.flipPending then Looking else AtTake(s.decoder.i))
    case Take => s.(busy := s.busy[s.decoder.i := true], held := s.held + {s.decoder.i}, decoder := Looking)
    case Submit(i) => s.(kernel := Some(i), held := s.held - {i}, presenter := Marking(i))
    case GiveUp(i) => s.(held := s.held - {i}, lost := s.lost + {i})
    case MarkBusy => s.(busy := s.busy[s.presenter.i := true], presenter := Pending(s.presenter.i))
    case SetPending => s.(flipPending := s.presenter.i, presenter := Recording(s.presenter.i))
    case Record => s.(history := s.history + [s.presenter.i], presenter := Ready)
    case Complete => s.(displayed := s.kernel.value, kernel := None, events := s.events + [s.kernel.value])
    case TakeEvent => s.(events := s.events[1..], history := s.history[1..], presenter := Freeing(s.history[0]))
    case FreeOld => s.(busy := s.busy[s.onScreen := false], presenter := Showing(s.presenter.i))
    case ShowNew => s.(onScreen := s.presenter.i, presenter := Clearing)
    case ClearPending => s.(flipPending := -1, presenter := Ready)
  }

  // ---------------------------------------------------------------------------
  // The invariant
  // ---------------------------------------------------------------------------

  /** The accepted flips whose events have not been taken, oldest first. */
  function Flips(s: State): seq<nat> {
    s.events + if s.kernel.Some? then [s.kernel.value] else []
  }

  /** The present worker is handling the event of flip `i`. */
  predicate Handling(s: State, i: nat) {
    s.presenter == Freeing(i) || s.presenter == Showing(i)
  }

  predicate Submitting(s: State) {
    s.presenter.Marking? || s.presenter.Pending? || s.presenter.Recording?
  }

  /** The buffer is handed out, on its way to the screen, or given up. */
  predicate Owned(s: State, i: nat) {
    i in s.held || i in s.lost || i in Flips(s) || Handling(s, i)
  }

  /** Each owner is the only one. */
  ghost predicate Exclusive(s: State) {
    && s.held !! s.lost
    && (forall k, l :: 0 <= k < l < |Flips(s)| ==> Flips(s)[k] != Flips(s)[l])
    && (forall i :: i in Flips(s) ==> i !in s.held && i !in s.lost && !Handling(s, i))
    && (forall i :: Handling(s, i) ==> i !in s.held && i !in s.lost)
  }

  ghost predicate Marked(s: State)
    requires InRange(s)
  {
    && (forall i: nat :: Owned(s, i) ==> i < |s.busy| && s.busy[i] && i != s.onScreen)
    && (forall i: nat :: i < |s.busy| && s.busy[i] ==> Owned(s, i) || i == s.onScreen)
    && (s.presenter.Showing? ==> !s.busy[s.onScreen])
  }

  /** What the decode worker has read so far is still true. */
  predicate Read(s: State)
    requires InRange(s)
  {
    && (!s.decoder.Looking? ==> !s.busy[s.decoder.i])
    && (s.decoder.AtPending? || s.decoder.AtTake? ==> s.decoder.i != s.onScreen)
  }

  /** The history is the accepted flips, up to the one being recorded. */
  predicate Recorded(s: State) {
    Flips(s) == s.history + if Submitting(s) then [s.presenter.i] else []
  }

  /** What is really on screen. */
  predicate Shown(s: State) {
    if s.events != [] then s.displayed == s.events[|s.events| - 1]
    else if s.presenter.Freeing? || s.presenter.Showing? then s.displayed == s.presenter.i
    else s.displayed == s.onScreen
  }

  ghost predicate Inv(s: State) {
    InRange(s) && Exclusive(s) && Marked(s) && Read(s) && Recorded(s) && Shown(s)
  }

  lemma StartInv(n: nat)
    requires n >= 1
    ensures Inv(Start(n))
  {
  }

  // ---------------------------------------------------------------------------
  // Every step keeps it
  // ---------------------------------------------------------------------------

  lemma FlipsAfter(s: State, t: Step)
    requires InRange(s) && Enabled(s, t)
    ensures Flips(Apply(s, t)) ==
            match t
            case Submit(i) => Flips(s) + [i]
            case TakeEvent => Flips(s)[1..]
            case _ => Flips(s)
  {
  }

  /** The event taken is that of the oldest record. */
  lemma OldestTaken(s: State)
    requires Inv(s) && Enabled(s, TakeEvent)
    ensures s.history[0] == s.events[0] == Flips(s)[0] && Flips(s) == [s.history[0]] + Flips(s)[1..]
  {
    hide Exclusive, Marked, Read, Shown;
    assert s.history + [] == s.history;
    assert Flips(s)[0] == s.events[0];
  }

  lemma InFlips(s: State)
    ensures s.kernel.Some? ==> s.kernel.value in Flips(s)
    ensures forall i :: i in s.events ==> i in Flips(s)
    ensures s.events != [] ==> s.events[|s.events| - 1] in s.events
  {
    if s.kernel.Some? { assert Flips(s)[|s.events|] == s.kernel.value; }
  }

  lemma OwnersAfter(s: State, t: Step, i: nat)
    requires Inv(s) && Enabled(s, t)
    ensures var s' := Apply(s, t);
            Owned(s', i) <==> (Owned(s, i) && !(t.ShowNew? && i == s.presenter.i)) || (t.Take? && i == s.decoder.i)
  {
    FlipsAfter(s, t);
    if t.TakeEvent? { OldestTaken(s); }
    hide Flips, Marked, Recorded, Shown;
  }

  lemma SubmitExclusive(s: State, i: nat)
    requires Inv(s) && Enabled(s, Submit(i))
    ensures Exclusive(Apply(s, Submit(i)))
  {
    FlipsAfter(s, Submit(i));
    hide Flips, Marked, Recorded, Shown, Read;
    var flips, more := Flips(s), Flips(Apply(s, Submit(i)));
    forall k, l | 0 <= k < l < |more|
      ensures more[k] != more[l]
    {
      assert more[k] == flips[k] && flips[k] in flips;
      assert l < |flips| ==> more[l] == flips[l];
    }
  }

  lemma EventExclusive(s: State)
    requires Inv(s) && Enabled(s, TakeEvent)
    ensures Exclusive(Apply(s, TakeEvent))
  {
    FlipsAfter(s, TakeEvent);
    OldestTaken(s);
    hide Flips, Marked, Recorded, Shown, Read;
    var flips, rest := Flips(s), Flips(Apply(s, TakeEvent));
    assert rest == flips[1..] && flips[0] in flips;
    forall i | i in rest
      ensures i in flips && i != flips[0]
    {
      var k :| 0 <= k < |rest| && rest[k] == i;
      assert flips[k + 1] == i;
    }
  }

  lemma ExclusiveKept(s: State, t: Step)
    requires Inv(s) && Enabled(s, t)
    ensures Exclusive(Apply(s, t))
  {
    if t.Submit? {
      SubmitExclusive(s, t.i);
    } else if t.TakeEvent? {
      EventExclusive(s);
    } else {
      FlipsAfter(s, t);
      HandlingAfter(s, t);
      assert t.Take? ==> !Owned(s, s.decoder.i);
      hide Flips, Marked, Recorded, Shown, Read, Handling;
    }
  }

  lemma HandlingAfter(s: State, t: Step)
    requires InRange(s) && Enabled(s, t) && !t.TakeEvent?
    ensures forall i :: Handling(Apply(s, t), i) ==> Handling(s, i)
  {
  }

  lemma InRangeKept(s: State, t: Step)
    requires Inv(s) && Enabled(s, t)
    ensures InRange(Apply(s, t))
  {
    assert t.Submit? ==> Owned(s, t.i);
    if t.TakeEvent? {
      OldestTaken(s);
      assert Owned(s, s.history[0]);
    }
    hide Flips, Exclusive, Recorded, Shown;
  }

  lemma MarkedKept(s: State, t: Step)
    requires Inv(s) && Enabled(s, t) && InRange(Apply(s, t))
    ensures Marked(Apply(s, t))
  {
    var s' := Apply(s, t);
    forall i: nat
      ensures Owned(s', i) <==> (Owned(s, i) && !(t.ShowNew? && i == s.presenter.i)) || (t.Take? && i == s.decoder.i)
    {
      OwnersAfter(s, t, i);
    }
    assert t.MarkBusy? ==> Owned(s, s.presenter.i) by { SubmittedOwned(s); }
    assert s.presenter.Freeing? || s.presenter.Showing? ==> Owned(s, s.presenter.i);
    hide Owned, Exclusive, Recorded, Shown, Flips;
  }

  lemma SubmittedOwned(s: State)
    requires Inv(s)
    ensures Submitting(s) ==> Owned(s, s.presenter.i)
  {
    if Submitting(s) { assert Flips(s)[|s.history|] == s.presenter.i; }
  }

  lemma ReadKept(s: State, t: Step)
    requires Inv(s) && Enabled(s, t) && InRange(Apply(s, t))
    ensures Read(Apply(s, t))
  {
    SubmittedOwned(s);
    assert s.presenter.Freeing? || s.presenter.Showing? ==> Owned(s, s.presenter.i);
    hide Owned, Exclusive, Recorded, Shown, Flips;
  }

  lemma RecordedKept(s: State, t: Step)
    requires Inv(s) && Enabled(s, t)
    ensures Recorded(Apply(s, t))
  {
    FlipsAfter(s, t);
    if t.TakeEvent? { OldestTaken(s); }
    hide Flips, Exclusive, Marked, Read, Shown;
    var s' := Apply(s, t);
    assert s.history + [] == s.history && s'.history + [] == s'.history;
  }

  lemma ShownKept(s: State, t: Step)
    requires Inv(s) && Enabled(s, t)
    ensures Shown(Apply(s, t))
  {
    if t.TakeEvent? { OldestTaken(s); }
    hide Flips, Exclusive, Marked, Read, Recorded;
  }

  lemma InvStep(s: State, t: Step)
    requires Inv(s) && Enabled(s, t)
    ensures Inv(Apply(s, t))
  {
    InRangeKept(s, t);
    ExclusiveKept(s, t);
    MarkedKept(s, t);
    ReadKept(s, t);
    RecordedKept(s, t);
    ShownKept(s, t);
    hide Enabled, InRange, Exclusive, Marked, Read, Recorded, Shown, Apply;
  }

  // ---------------------------------------------------------------------------
  // Every interleaving
  // ---------------------------------------------------------------------------

  /** The state after a sequence of enabled steps. */
  ghost function Exec(n: nat, ts: seq<Step>): (r: Option<State>)
    requires n >= 1
    ensures r.Some? ==> Inv(r.value)
  {
    if ts == [] then
      StartInv(n);
      Some(Start(n))
    else
      var before := Exec(n, ts[..|ts| - 1]);
      if before.Some? && Enabled(before.value, ts[|ts| - 1]) then
        InvStep(before.value, ts[|ts| - 1]);
        Some(Apply(before.value, ts[|ts| - 1]))
      else None
  }

  /** In every interleaving of reads, writes and kernel completions: when the decode worker takes a buffer,
      that buffer is not on screen, not on its way there, not handed out and not given up. */
  lemma TakenWasFree(n: nat, ts: seq<Step>)
    requires n >= 1 && Exec(n, ts).Some? && Exec(n, ts).value.decoder.AtTake?
    ensures var s := Exec(n, ts).value;
            var i := s.decoder.i;
            && i != s.displayed && i != s.onScreen && s.kernel != Some(i) && i !in s.events
            && i !in s.held && i !in s.lost
  {
    hide Exec;
    var s := Exec(n, ts).value;
    var i := s.decoder.i;
    assert !Owned(s, i);
    InFlips(s);
    hide Flips;
  }

  /** And the buffer on screen, and the one the kernel is about to show, are never handed out, even while
      their events are still waiting. */
  lemma ShownIsSafe(n: nat, ts: seq<Step>)
    requires n >= 1 && Exec(n, ts).Some?
    ensures var s := Exec(n, ts).value;
            s.displayed !in s.held && (s.kernel.Some? ==> s.kernel.value !in s.held)
  {
    hide Exec;
    var s := Exec(n, ts).value;
    InFlips(s);
    hide Flips;
    assert s.displayed in s.held ==> Owned(s, s.displayed);
  }
}
