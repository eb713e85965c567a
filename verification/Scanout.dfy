/** Ownership of the scanout buffers between decoder, present worker and kernel
    (src/video/drm_scanout.c). */
module Scanout {
  import opened Words

  const MAX_BUFS: nat := 8
  const HISTORY: nat := 16

  /** The bookkeeping of `vmc_drm_scanout`; -1 stands for no buffer. */
  datatype Screen = Screen(
    busy: seq<bool>, next: nat, flipPending: int, onScreen: int, lastCompleted: int, flipsDone: nat,
    history: seq<int>, head: nat, tail: nat)

  predicate Formed(s: Screen) {
    && 1 <= |s.busy| <= MAX_BUFS && s.next < |s.busy|
    && |s.history| == HISTORY && s.head < HISTORY && s.tail < HISTORY
    && -1 <= s.flipPending < |s.busy| && 0 <= s.onScreen < |s.busy|
    && forall k :: 0 <= k < HISTORY ==> 0 <= s.history[k] < |s.busy|
  }

  /** After `vmc_drm_scanout_init` with `n` buffers: buffer 0 is scanned out. */
  function Start(n: nat): Screen
    requires 1 <= n <= MAX_BUFS
  {
    Screen(seq(n, _ => false), 1 % n, -1, 0, 0, 0, seq(HISTORY, _ => 0), 0, 0)
  }

  predicate Available(s: Screen, i: nat) {
    i < |s.busy| && !s.busy[i] && i != s.onScreen && i != s.flipPending
  }

  // ---------------------------------------------------------------------------
  // The code
  // ---------------------------------------------------------------------------

  /** `(next + i) % nbufs` for `i` below `nbufs`. */
  function Around(next: nat, i: nat, n: nat): nat
    requires next < n && i <= n
  {
    if next + i < n then next + i else next + i - n
  }

  /** Buffer `i` is available, and it is the first such one around from the cursor. */
  ghost predicate FirstAround(s: Screen, i: nat)
    requires Formed(s)
  {
    && Available(s, i)
    && exists k :: 0 <= k < |s.busy| && i == Around(s.next, k, |s.busy|)
                   && forall j :: 0 <= j < k ==> !Available(s, Around(s.next, j, |s.busy|))
  }

  class Drm {
    const busy: array<bool>
    const history: array<int>
    var next: nat
    var flipPending: int
    var onScreen: int
    var lastCompleted: int
    var flipsDone: nat
    var head: nat
    var tail: nat

    ghost predicate Valid()
      reads this, busy, history
    {
      Formed(State())
    }

    ghost function State(): Screen
      reads this, busy, history
    {
      Screen(busy[..], next, flipPending, onScreen, lastCompleted, flipsDone, history[..], head, tail)
    }

    constructor (n: nat)
      requires 1 <= n <= MAX_BUFS
      ensures Valid() && fresh(busy) && fresh(history) && State() == Start(n)
    {
      busy := new bool[n](_ => false);
      history := new int[HISTORY](_ => 0);
      next, flipPending, onScreen, lastCompleted, flipsDone := 1 % n, -1, 0, 0, 0;
      head, tail := 0, 0;
    }

    /** `vmc_drm_scanout_next_idx`: the next buffer around from the cursor that is available, if there
        is any at all. */
    method NextIdx() returns (r: Option<nat>)
      requires Valid()
      modifies this, busy
      ensures Valid()
      ensures r.Some? ==> FirstAround(old(State()), r.value) && State() == HandedOut(old(State()), r.value)
      ensures r.None? ==> State() == old(State()) && forall i :: 0 <= i < busy.Length ==> !Available(State(), i)
    {
      var n := busy.Length;
      for i := 0 to n
        invariant State() == old(State())
        invariant forall k :: 0 <= k < i ==> !Available(State(), Around(next, k, n))
      {
        var idx := Around(next, i, n);
        if !busy[idx] && idx != onScreen && idx != flipPending {
          next := Around(idx, 1, n);
          busy[idx] := true;
          return Some(idx);
        }
      }
      forall i | 0 <= i < n
        ensures !Available(State(), i)
      {
        var k := if i >= next then i - next else i + n - next;
        assert Around(next, k, n) == i;
      }
      r := None;
    }

    /** The bookkeeping of `vmc_drm_scanout_present` when the kernel accepts the flip. */
    method Submitted(idx: nat)
      requires Valid() && idx < busy.Length
      modifies this, busy, history
      ensures Valid() && State() == Flipped(old(State()), idx)
    {
      busy[idx] := true;
      flipPending := idx;
      if (head + 1) % HISTORY == tail {
        tail := (tail + 1) % HISTORY;
      }
      history[head] := idx;
      head := (head + 1) % HISTORY;
    }

    /** `flip_handler`. */
    method FlipHandler()
      requires Valid()
      modifies this, busy
      ensures Valid() && State() == Completed(old(State()))
    {
      if head != tail {
        var rec := history[tail];
        tail := (tail + 1) % HISTORY;
        if onScreen >= 0 {
          busy[onScreen] := false;
        }
        onScreen := rec;
        lastCompleted := rec;
        flipPending := -1;
      } else if flipPending >= 0 {
        if onScreen >= 0 {
          busy[onScreen] := false;
        }
        onScreen := flipPending;
        lastCompleted := flipPending;
        flipPending := -1;
      }
      flipsDone := flipsDone + 1;
    }
  }

  function HandedOut(s: Screen, i: nat): Screen
    requires Formed(s) && i < |s.busy|
  {
    s.(next := Around(i, 1, |s.busy|), busy := s.busy[i := true])
  }

  function Flipped(s: Screen, i: nat): Screen
    requires Formed(s) && i < |s.busy|
  {
    s.(busy := s.busy[i := true], flipPending := i,
       tail := if (s.head + 1) % HISTORY == s.tail then (s.tail + 1) % HISTORY else s.tail,
       history := s.history[s.head := i], head := (s.head + 1) % HISTORY)
  }

  function Completed(s: Screen): Screen
    requires Formed(s)
  {
    var released := s.busy[s.onScreen := false];
    if s.head != s.tail then
      s.(tail := (s.tail + 1) % HISTORY, busy := released, onScreen := s.history[s.tail],
         lastCompleted := s.history[s.tail], flipPending := -1, flipsDone := s.flipsDone + 1)
    else if s.flipPending >= 0 then
      s.(busy := released, onScreen := s.flipPending, lastCompleted := s.flipPending, flipPending := -1,
         flipsDone := s.flipsDone + 1)
    else s.(flipsDone := s.flipsDone + 1)
  }

  // ---------------------------------------------------------------------------
  // Runs with the kernel
  // ---------------------------------------------------------------------------

  /** `kernel` is the flip the kernel has accepted and not yet completed; `held` are the buffers handed
      out and waiting for their flip; `lost` are those whose flip the present worker has given up. */
  datatype System = System(screen: Screen, kernel: Option<nat>, held: set<nat>, lost: set<nat>)

  datatype Step = HandOut(i: nat) | Accept(i: nat) | GiveUp(i: nat) | Event

  /** The kernel keeps at most one flip outstanding and sends one event per accepted flip; only buffers
      that were handed out are presented. When the kernel keeps refusing, the present worker drops its
      queue entry, and nothing else refers to the buffer. */
  predicate Enabled(s: System, t: Step) {
    match t
    case HandOut(i) => Available(s.screen, i)
    case Accept(i) => i in s.held && s.kernel.None?
    case GiveUp(i) => i in s.held
    case Event => s.kernel.Some?
  }

  function Apply(s: System, t: Step): System
    requires Formed(s.screen) && (forall i :: i in s.held ==> i < |s.screen.busy|) && Enabled(s, t)
  {
    match t
    case HandOut(i) => s.(screen := HandedOut(s.screen, i), held := s.held + {i})
    case Accept(i) => s.(screen := Flipped(s.screen, i), kernel := Some(i), held := s.held - {i})
    case GiveUp(i) => s.(held := s.held - {i}, lost := s.lost + {i})
    case Event => s.(screen := Completed(s.screen), kernel := None)
  }

  /** Where a buffer is. */
  datatype Place = IsFree | IsHeld | IsPending | IsShown | IsLost

  predicate At(s: System, i: nat, p: Place)
    requires i < |s.screen.busy|
  {
    match p
    case IsFree => Available(s.screen, i)
    case IsHeld => i in s.held
    case IsPending => s.kernel == Some(i)
    case IsShown => i == s.screen.onScreen
    case IsLost => i in s.lost
  }

  /** The buffer is in that place and in no other. */
  predicate OnlyAt(s: System, i: nat, p: Place)
    requires i < |s.screen.busy|
  {
    At(s, i, p) && forall q: Place :: q != p ==> !At(s, i, q)
  }

  ghost predicate Inv(s: System) {
    && Formed(s.screen) && s.held !! s.lost
    && (forall i :: i in s.held || i in s.lost ==>
                      i < |s.screen.busy| && s.screen.busy[i] && i != s.screen.onScreen && i != s.screen.flipPending)
    && (forall i :: 0 <= i < |s.screen.busy| && s.screen.busy[i] ==>
                      i in s.held || i in s.lost || i == s.screen.onScreen || i == s.screen.flipPending)
    && (s.kernel == if s.screen.flipPending >= 0 then Some(s.screen.flipPending) else None)
    && (s.kernel.None? ==> s.screen.head == s.screen.tail)
    && (s.kernel.Some? ==>
          && s.screen.flipPending != s.screen.onScreen && s.screen.busy[s.screen.flipPending]
          && s.screen.head == (s.screen.tail + 1) % HISTORY && s.screen.history[s.screen.tail] == s.screen.flipPending)
  }

  lemma InvStep(s: System, t: Step)
    requires Inv(s) && Enabled(s, t)
    ensures Inv(Apply(s, t))
  {
  }

  lemma StartInv(n: nat)
    requires 1 <= n <= MAX_BUFS
    ensures Inv(System(Start(n), None, {}, {}))
  {
  }

  /** The state after a sequence of enabled steps. */
  ghost function Exec(n: nat, ts: seq<Step>): (r: Option<System>)
    requires 1 <= n <= MAX_BUFS
    ensures r.Some? ==> Inv(r.value)
  {
    if ts == [] then
      StartInv(n);
      Some(System(Start(n), None, {}, {}))
    else
      var before := Exec(n, ts[..|ts| - 1]);
      if before.Some? && Enabled(before.value, ts[|ts| - 1]) then
        InvStep(before.value, ts[|ts| - 1]);
        Some(Apply(before.value, ts[|ts| - 1]))
      else None
  }

  /** In every reachable state each buffer is in exactly one of free, held, pending, on screen and lost,
      the driver's view of the pending flip is the kernel's, and the flip history has one record exactly
      when a flip is pending. */
  lemma OnePlaceEach(n: nat, ts: seq<Step>, i: nat)
    requires 1 <= n <= MAX_BUFS && Exec(n, ts).Some? && i < |Exec(n, ts).value.screen.busy|
    ensures var s := Exec(n, ts).value;
            && (exists p :: OnlyAt(s, i, p))
            && (s.screen.flipPending >= 0 <==> s.kernel.Some?)
            && (s.kernel.Some? <==> s.screen.head != s.screen.tail)
            && (s.kernel.Some? ==> s.screen.head == (s.screen.tail + 1) % HISTORY
                                   && s.screen.history[s.screen.tail] == s.kernel.value)
  {
    hide Exec;
    var s := Exec(n, ts).value;
    var p := if i in s.held then IsHeld
             else if i in s.lost then IsLost
             else if s.kernel == Some(i) then IsPending
             else if i == s.screen.onScreen then IsShown
             else IsFree;
    assert OnlyAt(s, i, p);
  }

  /** A buffer that is handed out was free: not on screen, not pending, not already held. */
  lemma HandedOutWasFree(n: nat, ts: seq<Step>, i: nat)
    requires 1 <= n <= MAX_BUFS && Exec(n, ts).Some? && Enabled(Exec(n, ts).value, HandOut(i))
    ensures var s := Exec(n, ts).value; OnlyAt(s, i, IsFree)
  {
  }

  /** A completion event in any run shows the flip the kernel had accepted, releases the buffer shown before
      and no other, reports the new one as completed, and counts one flip. */
  lemma EventShows(n: nat, ts: seq<Step>)
    requires 1 <= n <= MAX_BUFS && Exec(n, ts).Some? && Enabled(Exec(n, ts).value, Event)
    ensures var s := Exec(n, ts).value;
            var s' := Apply(s, Event);
            && s'.screen.onScreen == s.kernel.value == s'.screen.lastCompleted && s'.screen.flipPending == -1
            && s'.screen.flipsDone == s.screen.flipsDone + 1 && s'.kernel.None?
            && s'.screen.busy == s.screen.busy[s.screen.onScreen := false]
  {
    hide Exec;
  }

  /** Handing out a buffer marks it and no other, and the next search starts after it. */
  lemma HandOutMoves(s: Screen, i: nat)
    requires Formed(s) && i < |s.busy|
    ensures HandedOut(s, i).next == (i + 1) % |s.busy| && HandedOut(s, i).busy[i]
    ensures forall j :: 0 <= j < |s.busy| && j != i ==> HandedOut(s, i).busy[j] == s.busy[j]
    ensures HandedOut(s, i).onScreen == s.onScreen && HandedOut(s, i).flipPending == s.flipPending
  {
  }

  // ---------------------------------------------------------------------------
  // How many buffers are left
  // ---------------------------------------------------------------------------

  function FreeBuffers(s: Screen): set<nat> {
    set i: nat | i < |s.busy| && Available(s, i)
  }

  function Pending(s: System): set<nat> {
    if s.kernel.Some? then {s.kernel.value} else {}
  }

  lemma {:induction false} BufferCount(n: nat, ts: seq<Step>)
    requires 1 <= n <= MAX_BUFS && Exec(n, ts).Some?
    ensures |Exec(n, ts).value.screen.busy| == n
  {
    if ts != [] {
      BufferCount(n, ts[..|ts| - 1]);
    }
  }

  lemma SumOfSizes(a: set<nat>, b: set<nat>, c: set<nat>, d: set<nat>, e: set<nat>)
    requires a !! b + c + d + e && b !! c + d + e && c !! d + e && d !! e
    ensures |a + (b + (c + (d + e)))| == |a| + |b| + |c| + |d| + |e|
  {
    var de := d + e;
    assert |de| == |d| + |e|;
    var cde := c + de;
    assert |cde| == |c| + |de|;
    var bcde := b + cde;
    assert |bcde| == |b| + |cde|;
    assert a !! bcde;
  }

  lemma Partition(n: nat, a: set<nat>, b: set<nat>, c: set<nat>, d: set<nat>, e: set<nat>)
    requires forall i: nat :: i < n <==> i in a || i in b || i in c || i in d || i in e
    requires a !! b + c + d + e && b !! c + d + e && c !! d + e && d !! e
    ensures n == |a| + |b| + |c| + |d| + |e|
  {
    hide Below;
    SumOfSizes(a, b, c, d, e);
    assert Below(n) == a + (b + (c + (d + e)));
  }

  lemma PlaceOf(s: System, i: nat)
    requires Inv(s)
    ensures i < |s.screen.busy| <==>
              i in FreeBuffers(s.screen) || i in s.held || i in s.lost || i in Pending(s) || i == s.screen.onScreen
    ensures i in FreeBuffers(s.screen) ==> i !in s.held && i !in s.lost && i !in Pending(s) && i != s.screen.onScreen
    ensures i in s.held || i in s.lost ==> i !in Pending(s) && i != s.screen.onScreen
    ensures i in Pending(s) ==> i != s.screen.onScreen
  {
  }

  /** The places partition the buffers. */
  lemma Places(s: System)
    requires Inv(s)
    ensures |FreeBuffers(s.screen)| + |s.held| + |s.lost| + |Pending(s)| + 1 == |s.screen.busy|
  {
    var n := |s.screen.busy|;
    var shown: nat := s.screen.onScreen;
    assert s.held !! s.lost;
    hide Inv, FreeBuffers, Pending;
    var free, pending := FreeBuffers(s.screen), Pending(s);
    forall i: nat
      ensures i < n <==> i in free || i in s.held || i in s.lost || i in pending || i == shown
      ensures i in free ==> i !in s.held && i !in s.lost && i !in pending && i != shown
      ensures i in s.held || i in s.lost ==> i !in pending && i != shown
      ensures i in pending ==> i != shown
    {
      PlaceOf(s, i);
    }
    Partition(n, free, s.held, s.lost, pending, {shown});
  }

  function GivenUp(ts: seq<Step>): nat {
    if ts == [] then 0 else GivenUp(ts[..|ts| - 1]) + if ts[|ts| - 1].GiveUp? then 1 else 0
  }

  /** Every flip given up costs one buffer for good. */
  lemma {:induction false} LostForGood(n: nat, ts: seq<Step>)
    requires 1 <= n <= MAX_BUFS && Exec(n, ts).Some?
    ensures |Exec(n, ts).value.lost| == GivenUp(ts)
  {
    if ts != [] {
      LostForGood(n, ts[..|ts| - 1]);
    }
  }

  /** In every run there is a buffer to hand out if and only if those held, those whose flips were given
      up, the pending one and the one on screen are fewer than all. */
  lemma AvailableIff(n: nat, ts: seq<Step>)
    requires 1 <= n <= MAX_BUFS && Exec(n, ts).Some?
    ensures var s := Exec(n, ts).value;
            (exists i :: Available(s.screen, i)) <==>
              |s.held| + GivenUp(ts) + (if s.kernel.Some? then 1 else 0) + 1 < n
  {
    hide Exec;
    var s := Exec(n, ts).value;
    BufferCount(n, ts);
    LostForGood(n, ts);
    Places(s);
    var free := FreeBuffers(s.screen);
    if i :| Available(s.screen, i) {
      assert i in free;
    } else {
      assert free == {};
    }
    if free != {} {
      var i :| i in free;
      assert Available(s.screen, i);
    }
  }
}
