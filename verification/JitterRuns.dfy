/** What the reorder buffer guarantees over whole runs. */
module JitterRuns {
  import opened Words
  import opened JitterBuffer

  // ---------------------------------------------------------------------------
  // Serial order
  // ---------------------------------------------------------------------------

  /** All buffered sequence numbers lie in the half circle that starts at `base`. */
  ghost predicate Spans(slots: Slots, base: u32) {
    forall it :: it in Items(slots) ==> Off(it.seqNo, base) < HALF
  }

  lemma CmpByOffset(a: u32, b: u32, base: u32)
    requires Off(a, base) < HALF && Off(b, base) < HALF
    ensures SeqCmp(a, b) == Off(a, base) - Off(b, base)
  {
  }

  lemma OffInjective(a: u32, b: u32, base: u32)
    requires Off(a, base) == Off(b, base)
    ensures a == b
  {
  }

  lemma {:induction false} LeastIsFirst(slots: Slots, base: u32)
    requires Spans(slots, base) && Items(slots) != {}
    ensures Least(slots).Some?
    ensures forall it :: it in Items(slots) ==> Off(Least(slots).value.seqNo, base) <= Off(it.seqNo, base)
  {
    var n := |slots| - 1;
    var front := slots[..n];
    ItemsSnoc(slots);
    LeastIsBuffered(slots);
    LeastIsBuffered(front);
    if Items(front) != {} {
      LeastIsFirst(front, base);
      if slots[n].Some? {
        CmpByOffset(slots[n].value.seqNo, Least(front).value.seqNo, base);
      }
    }
  }

  // ---------------------------------------------------------------------------
  // What a push does, in terms of what is buffered
  // ---------------------------------------------------------------------------

  lemma {:induction false} FullCount(slots: Slots)
    requires Unique(slots) && forall i :: 0 <= i < |slots| ==> slots[i].Some?
    ensures |Items(slots)| == |slots|
  {
    if slots != [] {
      var n := |slots| - 1;
      FullCount(slots[..n]);
      ItemsSnoc(slots);
      assert slots[n].value !in Items(slots[..n]);
    }
  }

  lemma {:induction false} RoomCount(slots: Slots, k: nat)
    requires k < |slots| && slots[k].None?
    ensures |Items(slots)| < |slots|
  {
    var n := |slots| - 1;
    ItemsSnoc(slots);
    if k < n {
      RoomCount(slots[..n], k);
    } else {
      AtMostSlots(slots[..n]);
    }
  }

  lemma {:induction false} AtMostSlots(slots: Slots)
    ensures |Items(slots)| <= |slots|
  {
    if slots != [] {
      AtMostSlots(slots[..|slots| - 1]);
      ItemsSnoc(slots);
    }
  }

  ghost predicate Buffered(slots: Slots, seqNo: u32) {
    exists it :: it in Items(slots) && it.seqNo == seqNo
  }

  lemma FoundIffBuffered(slots: Slots, seqNo: u32)
    ensures FindSeq(slots, seqNo) < |slots| <==> Buffered(slots, seqNo)
  {
    var k := FindSeq(slots, seqNo);
    if k < |slots| { assert slots[k].value in Items(slots); }
    if Buffered(slots, seqNo) {
      var it :| it in Items(slots) && it.seqNo == seqNo;
      var i :| 0 <= i < |slots| && slots[i].Some? && slots[i].value == it;
    }
  }

  /** The distance from the playout position, which the first push sets to itself. */
  function Ahead32(b: Buffer, seqNo: u32): int {
    if b.pushed == 0 then 0 else SeqCmp(seqNo, b.nextSeq)
  }

  /** A push is refused as a duplicate if and only if its number is buffered, else as out of sync if and only
      if it is 256 or more away on either side, else for want of room if and only if 256 items are
      buffered; otherwise it is accepted, and the first 1408 bytes of it are kept. */
  lemma PushOutcome(b: Buffer, it: Item)
    requires Unique(b.slots) && |b.slots| == MAX_SLOTS
    ensures var (c, status) := Push(b, it);
            var d := Ahead32(b, it.seqNo);
            && (status == Again <==> Buffered(b.slots, it.seqNo))
            && (status == OutOfSync <==> !Buffered(b.slots, it.seqNo) && !(-256 < d < 256))
            && (status == Overrun <==> !Buffered(b.slots, it.seqNo) && -256 < d < 256 && |Items(b.slots)| == 256)
            && (status == Ok <==> !Buffered(b.slots, it.seqNo) && -256 < d < 256 && |Items(b.slots)| < 256)
            && (status == Ok ==> exists kept :: Items(c.slots) == Items(b.slots) + {kept} && Kept(it, kept))
            && (status != Ok ==> Items(c.slots) == Items(b.slots))
            && c.dupe == b.dupe + (if status == Again then 1 else 0)
            && c.late == b.late + (if status == OutOfSync || status == Overrun then 1 else 0)
  {
    hide Items, Unique, Off, SeqCmp, Buffered, Kept;
    FoundIffBuffered(b.slots, it.seqNo);
    CmpSelf(it.seqNo);
    var free := FindFree(b.slots);
    if free < |b.slots| { RoomCount(b.slots, free); } else { FullCount(b.slots); }
    if Push(b, it).1 == Ok {
      ItemsAdded(b.slots, free, Clip(it));
      ClipKeeps(it);
    }
  }

  lemma CmpSelf(a: u32)
    ensures SeqCmp(a, a) == 0
  {
  }

  lemma ClipKeeps(it: Item)
    ensures Kept(it, Clip(it))
  {
  }

  predicate Kept(it: Item, kept: Item) {
    && kept == it.(payload := kept.payload) && kept.payload <= it.payload
    && |kept.payload| == if |it.payload| < 1408 then |it.payload| else 1408
  }

  // ---------------------------------------------------------------------------
  // When a number is declared lost
  // ---------------------------------------------------------------------------

  lemma {:induction false} NewestIsLatest(slots: Slots)
    ensures Newest(slots).Some? ==> forall it :: it in Items(slots) ==> it.recvUs <= Newest(slots).value.recvUs
  {
    if slots != [] {
      NewestIsLatest(slots[..|slots| - 1]);
      LeastIsBuffered(slots[..|slots| - 1]);
      ItemsSnoc(slots);
    }
  }

  /** With something buffered, all of it received by now and ahead of the playout position, the missing
      numbers are declared lost if and only if everything buffered has been held for the target delay.
      Then they are the numbers up to the serially first item; otherwise nothing changes. */
  lemma DeclaredLostIff(b: Buffer, now: u64)
    requires Items(b.slots) != {} && Spans(b.slots, b.nextSeq)
    requires forall it :: it in Items(b.slots) ==> it.recvUs <= now && it.seqNo != b.nextSeq
    ensures var (c, r) := Peek(b, now);
            && (c.gaps > b.gaps <==> forall it :: it in Items(b.slots) ==> now - it.recvUs >= b.targetDelay)
            && (c.gaps == b.gaps ==> c == b && r.None?)
            && (c.gaps > b.gaps ==>
                  && c == b.(nextSeq := c.nextSeq, gaps := b.gaps + Off(c.nextSeq, b.nextSeq))
                  && (exists it :: it in Items(b.slots) && it.seqNo == c.nextSeq)
                  && (forall it :: it in Items(b.slots) ==> Off(c.nextSeq, b.nextSeq) <= Off(it.seqNo, b.nextSeq)))
  {
    LeastIsBuffered(b.slots);
    LeastIsFirst(b.slots, b.nextSeq);
    NewestIsLatest(b.slots);
    var m, newest := Least(b.slots).value, Newest(b.slots).value;
    AheadOf(m.seqNo, b.nextSeq);
    AgeIs(now, newest.recvUs);
    AgeIs(now, m.recvUs);
    hide Items, Least, Newest, Off, SeqCmp, Age;
  }

  /** `it` has been held for the target delay. */
  predicate Held(b: Buffer, it: Item, now: u64) {
    now - it.recvUs >= b.targetDelay
  }

  /** Peeking, said by what is buffered: with `m` the serially first item, and everything received by now,
      `m` is played if and only if it has been held and, where numbers before it are missing, everything
      else too; the position then stands at `m`, the missing numbers are counted, and otherwise nothing
      changes. */
  lemma PeekOutcome(b: Buffer, now: u64, base: u32, m: Item)
    requires Unique(b.slots) && Spans(b.slots, base) && m in Items(b.slots)
    requires forall it :: it in Items(b.slots) ==> it.recvUs <= now && Off(m.seqNo, base) <= Off(it.seqNo, base)
    ensures var ahead := SeqCmp(m.seqNo, b.nextSeq);
            var plays := if ahead > 0 then forall it :: it in Items(b.slots) ==> Held(b, it, now) else Held(b, m, now);
            Peek(b, now) ==
            if plays then (b.(nextSeq := m.seqNo, gaps := b.gaps + if ahead > 0 then ahead else 0), Some(m))
            else (b, None)
  {
    LeastIsBuffered(b.slots);
    LeastIsFirst(b.slots, base);
    NewestIsLatest(b.slots);
    var min, newest := Least(b.slots).value, Newest(b.slots).value;
    OffInjective(min.seqNo, m.seqNo, base);
    if min != m { UniqueItems(b.slots, min, m); }
    AgeIs(now, newest.recvUs);
    AgeIs(now, m.recvUs);
    CmpZero(m.seqNo, b.nextSeq);
    hide Items, Unique, Least, Newest, Off, SeqCmp, Age, Spans;
  }

  lemma CmpZero(a: u32, b: u32)
    ensures SeqCmp(a, b) == 0 <==> a == b
    ensures SeqCmp(a, b) > 0 ==> SeqCmp(a, b) == Off(a, b)
  {
  }

  lemma AheadOf(a: u32, b: u32)
    requires Off(a, b) < HALF && a != b
    ensures SeqCmp(a, b) > 0 && Off(a, b) > 0
  {
  }

  lemma AgeIs(now: u64, then_: u64)
    requires then_ <= now
    ensures Age(now, then_) == now - then_
  {
  }

  // ---------------------------------------------------------------------------
  // Draining
  // ---------------------------------------------------------------------------

  lemma ConsumeTakes(b: Buffer, it: Item)
    requires Unique(b.slots) && it in Items(b.slots) && b.nextSeq == it.seqNo
    ensures var c := Consume(b);
            Unique(c.slots) && Items(c.slots) == Items(b.slots) - {it}
            && |Items(c.slots)| + 1 == |Items(b.slots)|
            && c == b.(slots := c.slots, nextSeq := Plus(b.nextSeq, 1), played := b.played + 1)
  {
    var k := FindSeq(b.slots, b.nextSeq);
    var i :| 0 <= i < |b.slots| && b.slots[i].Some? && b.slots[i].value == it;
    assert k == i;
    ItemsRemoved(b.slots, k);
  }

  /** The client's loop: peek at the `k`-th clock reading, hand out the item, consume, repeat. */
  function Drain(b: Buffer, clock: nat -> u64, k: nat): (seq<Item>, Buffer)
    requires Unique(b.slots)
    decreases |Items(b.slots)|
  {
    var (c, r) := Peek(b, clock(k));
    if r.None? then ([], c)
    else
      PlayedIsHeld(b, clock(k));
      ConsumeTakes(c, r.value);
      var (rest, d) := Drain(Consume(c), clock, k + 1);
      ([r.value] + rest, d)
  }

  ghost predicate AllAged(b: Buffer, clock: nat -> u64, k: nat) {
    forall j: nat, it :: k <= j && it in Items(b.slots) ==> Age(clock(j), it.recvUs) >= b.targetDelay
  }

  ghost predicate SortedFrom(base: u32, items: seq<Item>) {
    forall i, j :: 0 <= i < j < |items| ==> Off(items[i].seqNo, base) < Off(items[j].seqNo, base)
  }

  lemma AgedIsPlayed(b: Buffer, now: u64)
    requires Items(b.slots) != {}
    requires forall it :: it in Items(b.slots) ==> Age(now, it.recvUs) >= b.targetDelay
    ensures Peek(b, now).1 == Least(b.slots) && Peek(b, now).1.Some?
  {
    LeastIsBuffered(b.slots);
  }

  /** Once every slot has aged, the loop plays every buffered item exactly once, in serial order, and
      stops with the buffer empty. */
  lemma {:induction false} DrainPlaysAll(b: Buffer, clock: nat -> u64, k: nat, base: u32)
    requires Unique(b.slots) && Spans(b.slots, base) && AllAged(b, clock, k)
    ensures var (items, after) := Drain(b, clock, k);
            && |items| == |Items(b.slots)|
            && (forall it :: it in items <==> it in Items(b.slots))
            && SortedFrom(base, items)
            && Items(after.slots) == {} && after.played == b.played + |items|
    decreases |Items(b.slots)|
  {
    var (c, r) := Peek(b, clock(k));
    if Items(b.slots) == {} {
      LeastIsBuffered(b.slots);
    } else {
      AgedIsPlayed(b, clock(k));
      PlayedIsHeld(b, clock(k));
      LeastIsFirst(b.slots, base);
      ConsumeTakes(c, r.value);
      var d := Consume(c);
      DrainPlaysAll(d, clock, k + 1, base);
      var (rest, after) := Drain(d, clock, k + 1);
      SortedCons(base, r.value, rest, b.slots);
    }
  }

  lemma SortedCons(base: u32, it: Item, rest: seq<Item>, slots: Slots)
    requires SortedFrom(base, rest) && Unique(slots)
    requires it in Items(slots)
    requires forall x :: x in rest ==> x in Items(slots) && x != it
    requires forall x :: x in Items(slots) ==> Off(it.seqNo, base) <= Off(x.seqNo, base)
    ensures SortedFrom(base, [it] + rest)
  {
    forall x | x in rest
      ensures Off(it.seqNo, base) < Off(x.seqNo, base)
    {
      var i :| 0 <= i < |slots| && slots[i].Some? && slots[i].value == x;
      var j :| 0 <= j < |slots| && slots[j].Some? && slots[j].value == it;
      if Off(it.seqNo, base) == Off(x.seqNo, base) {
        OffInjective(it.seqNo, x.seqNo, base);
      }
    }
    var all := [it] + rest;
    forall i, j | 0 <= i < j < |all|
      ensures Off(all[i].seqNo, base) < Off(all[j].seqNo, base)
    {
      assert all[j] == rest[j - 1];
      if i > 0 { assert all[i] == rest[i - 1]; }
    }
  }

  // ---------------------------------------------------------------------------
  // Accounting
  // ---------------------------------------------------------------------------

  datatype Op = DoPush(it: Item) | DoPeek(now: u64) | DoConsume

  /** How one sequence number left the playout position behind. */
  datatype Passed = Played(it: Item) | Lost(seqNo: u32)

  function PassedSeq(p: Passed): u32 {
    match p case Played(it) => it.seqNo case Lost(s) => s
  }

  /** The buffer together with the history of a run: the first sequence number, the total distance
      moved backwards, and the fate of every sequence number moved over. */
  datatype Run = Run(b: Buffer, base: u32, rewound: nat, log: seq<Passed>)

  function Start(targetDelay: u64): Run {
    Run(Empty(0, targetDelay), 0, 0, [])
  }

  function Step(r: Run, op: Op): Run {
    match op
    case DoPush(it) =>
      Run(Push(r.b, it).0, if r.b.pushed == 0 then it.seqNo else r.base, r.rewound, r.log)
    case DoPeek(now) =>
      var c := Peek(r.b, now).0;
      if c.gaps > r.b.gaps then
        r.(b := c, log := r.log + seq(c.gaps - r.b.gaps, i requires 0 <= i => Lost(Plus(r.b.nextSeq, i))))
      else r.(b := c, rewound := r.rewound + Off(r.b.nextSeq, c.nextSeq))
    case DoConsume =>
      var k := FindSeq(r.b.slots, r.b.nextSeq);
      if k == |r.b.slots| then r
      else r.(b := Consume(r.b), log := r.log + [Played(r.b.slots[k].value)])
  }

  function Steps(r: Run, ops: seq<Op>): Run {
    if ops == [] then r else Step(Steps(r, ops[..|ops| - 1]), ops[|ops| - 1])
  }

  ghost predicate Balanced(r: Run) {
    && Unique(r.b.slots) && |r.b.slots| == MAX_SLOTS
    && r.b.pushed == r.b.played + |Items(r.b.slots)|
    && r.b.nextSeq == Plus(r.base, r.b.played + r.b.gaps - r.rewound)
    && |r.log| == r.b.played + r.b.gaps
    && (r.b.pushed == 0 ==> r.b.played == r.b.gaps == r.rewound == 0)
  }

  lemma PlusAssoc(a: u32, m: int, n: int)
    ensures Plus(Plus(a, m), n) == Plus(a, m + n)
  {
  }

  lemma PlusOff(a: u32, b: u32)
    ensures Plus(b, Off(a, b)) == a && Plus(a, 0 - Off(a, b)) == b
  {
  }

  lemma StepBalanced(r: Run, op: Op)
    requires Balanced(r)
    ensures Balanced(Step(r, op))
  {
    hide Balanced, Step;
    match op
    case DoPush(it) => PushBalanced(r, it);
    case DoPeek(now) => PeekBalanced(r, now);
    case DoConsume => ConsumeBalanced(r);
  }

  lemma PushBalanced(r: Run, it: Item)
    requires Balanced(r)
    ensures Balanced(Step(r, DoPush(it)))
  {
    hide Items, Unique, SeqCmp, Off;
    if Push(r.b, it).1 == Ok {
      ItemsAdded(r.b.slots, FindFree(r.b.slots), Clip(it));
    }
  }

  lemma PeekBalanced(r: Run, now: u64)
    requires Balanced(r)
    ensures Balanced(Step(r, DoPeek(now)))
  {
    hide Items, Unique, Off, Plus, SeqCmp, Age, Least, Newest;
    var b, c := r.b, Peek(r.b, now).0;
    LeastIsBuffered(b.slots);
    var d := b.played + b.gaps - r.rewound;
    PlusOff(c.nextSeq, b.nextSeq);
    PlusOff(b.nextSeq, c.nextSeq);
    PlusAssoc(r.base, d, Off(c.nextSeq, b.nextSeq));
    PlusAssoc(r.base, d, 0 - Off(b.nextSeq, c.nextSeq));
    OffSelf(b.nextSeq);
  }

  lemma OffSelf(a: u32)
    ensures Off(a, a) == 0
  {
  }

  lemma ConsumeBalanced(r: Run)
    requires Balanced(r)
    ensures Balanced(Step(r, DoConsume))
  {
    hide Items, Unique, Plus;
    var k := FindSeq(r.b.slots, r.b.nextSeq);
    if k < |r.b.slots| {
      ItemsRemoved(r.b.slots, k);
      PlusAssoc(r.base, r.b.played + r.b.gaps - r.rewound, 1);
    }
  }

  lemma EmptyItems(nextSeq: u32, targetDelay: u64)
    ensures Items(Empty(nextSeq, targetDelay).slots) == {}
  {
  }

  /** Over every run: pushed = played + buffered, and the playout position is
      base + played + gaps - rewound modulo 2^32. */
  lemma {:induction false} RunBalanced(targetDelay: u64, ops: seq<Op>)
    ensures Balanced(Steps(Start(targetDelay), ops))
  {
    if ops == [] {
      EmptyItems(0, targetDelay);
    } else {
      RunBalanced(targetDelay, ops[..|ops| - 1]);
      StepBalanced(Steps(Start(targetDelay), ops[..|ops| - 1]), ops[|ops| - 1]);
    }
  }

  function Pushes(ops: seq<Op>): nat {
    if ops == [] then 0 else Pushes(ops[..|ops| - 1]) + if ops[|ops| - 1].DoPush? then 1 else 0
  }

  lemma PushCounts(b: Buffer, it: Item)
    ensures var c := Push(b, it).0; c.pushed + c.late + c.dupe == b.pushed + b.late + b.dupe + 1
  {
    hide SeqCmp;
  }

  lemma PlayingCounts(b: Buffer, now: u64)
    ensures var c := Peek(b, now).0; c.pushed + c.late + c.dupe == b.pushed + b.late + b.dupe
    ensures var c := Consume(b); c.pushed + c.late + c.dupe == b.pushed + b.late + b.dupe
  {
    hide SeqCmp, Off, Least, Newest, Age, Plus;
  }

  /** And every push of a run is counted once: as pushed, as late or as a duplicate. */
  lemma {:induction false} EveryPushCounted(targetDelay: u64, ops: seq<Op>)
    ensures var b := Steps(Start(targetDelay), ops).b; b.pushed + b.late + b.dupe == Pushes(ops)
  {
    hide Push, Peek, Consume, Off, Plus;
    if ops != [] {
      var n := |ops| - 1;
      EveryPushCounted(targetDelay, ops[..n]);
      var b := Steps(Start(targetDelay), ops[..n]).b;
      match ops[n]
      case DoPush(it) => PushCounts(b, it);
      case DoPeek(now) => PlayingCounts(b, now);
      case DoConsume => PlayingCounts(b, 0);
    }
  }

  // ---------------------------------------------------------------------------
  // Forward-only runs
  // ---------------------------------------------------------------------------

  /** No push of the run is accepted behind the playout position. */
  ghost predicate Forward(r: Run, ops: seq<Op>) {
    forall i :: 0 <= i < |ops| && ops[i].DoPush? ==> PushAhead(Steps(r, ops[..i]), ops[i].it)
  }

  predicate PushAhead(r: Run, it: Item) {
    r.b.pushed > 0 && Push(r.b, it).1 == Ok ==> SeqCmp(it.seqNo, r.b.nextSeq) >= 0
  }

  function PlayedIn(log: seq<Passed>): seq<Item> {
    if log == [] then []
    else
      var p := log[|log| - 1];
      PlayedIn(log[..|log| - 1]) + if p.Played? then [p.it] else []
  }

  /** Everything buffered lies in the window ahead of the playout position. */
  ghost predicate Ahead(b: Buffer) {
    forall it :: it in Items(b.slots) ==> Off(it.seqNo, b.nextSeq) < MAX_SLOTS
  }

  /** The log accounts for each sequence number from the base on, once and in order. */
  ghost predicate InSequence(r: Run) {
    && (forall i :: 0 <= i < |r.log| ==> PassedSeq(r.log[i]) == Plus(r.base, i))
    && |PlayedIn(r.log)| == r.b.played
  }

  ghost predicate Monotone(r: Run) {
    Balanced(r) && Ahead(r.b) && InSequence(r) && r.rewound == 0
  }

  lemma PushKeepsAhead(b: Buffer, it: Item)
    requires Unique(b.slots) && Ahead(b) && (b.pushed == 0 ==> Items(b.slots) == {})
    requires b.pushed > 0 && Push(b, it).1 == Ok ==> SeqCmp(it.seqNo, b.nextSeq) >= 0
    ensures Ahead(Push(b, it).0)
  {
    hide Items, Unique;
    OffSelf(it.seqNo);
    if Push(b, it).1 == Ok {
      ItemsAdded(b.slots, FindFree(b.slots), Clip(it));
    }
  }

  lemma OffBetween(a: u32, m: u32, next: u32)
    requires Off(m, next) <= Off(a, next) < MAX_SLOTS
    ensures Off(a, m) == Off(a, next) - Off(m, next)
  {
    OffIs(a, next);
    OffIs(m, next);
    OffIs(a, m);
    hide Off;
  }

  lemma OffIs(a: u32, b: u32)
    ensures Off(a, b) == if a >= b then a - b else a - b + TWO32
  {
  }

  /** Peeking never moves backwards here, and moves forwards exactly by what it counts as lost. */
  lemma PeekKeepsAhead(b: Buffer, now: u64)
    requires Ahead(b)
    ensures var c := Peek(b, now).0;
            Ahead(c) && c.gaps - b.gaps == Off(c.nextSeq, b.nextSeq)
            && (c.gaps == b.gaps ==> c.nextSeq == b.nextSeq)
  {
    hide Items, Newest, Least;
    OffSelf(b.nextSeq);
    LeastIsBuffered(b.slots);
    if Items(b.slots) != {} {
      LeastIsFirst(b.slots, b.nextSeq);
      var m := Least(b.slots).value;
      assert SeqCmp(m.seqNo, b.nextSeq) >= 0;
      forall it | it in Items(b.slots)
        ensures Off(it.seqNo, m.seqNo) < MAX_SLOTS
      {
        OffBetween(it.seqNo, m.seqNo, b.nextSeq);
      }
    }
  }

  lemma OffNext(a: u32, next: u32)
    requires Off(a, next) < MAX_SLOTS && a != next
    ensures Off(a, Plus(next, 1)) == Off(a, next) - 1
  {
  }

  lemma ConsumeKeepsAhead(b: Buffer)
    requires Unique(b.slots) && Ahead(b)
    ensures Ahead(Consume(b))
  {
    hide Items, Off, Plus;
    var k := FindSeq(b.slots, b.nextSeq);
    if k < |b.slots| {
      ItemsRemoved(b.slots, k);
      forall it | it in Items(b.slots) && it != b.slots[k].value
        ensures Off(it.seqNo, Plus(b.nextSeq, 1)) < MAX_SLOTS
      {
        UniqueItems(b.slots, it, b.slots[k].value);
        OffNext(it.seqNo, b.nextSeq);
      }
    }
  }

  lemma UniqueItems(slots: Slots, x: Item, y: Item)
    requires Unique(slots) && x in Items(slots) && y in Items(slots) && x != y
    ensures x.seqNo != y.seqNo
  {
    var i :| 0 <= i < |slots| && slots[i].Some? && slots[i].value == x;
    var j :| 0 <= j < |slots| && slots[j].Some? && slots[j].value == y;
    assert i < j || j < i;
  }

  lemma {:induction false} PlayedInConcat(a: seq<Passed>, b: seq<Passed>)
    ensures PlayedIn(a + b) == PlayedIn(a) + PlayedIn(b)
  {
    if b == [] {
      assert a + b == a;
    } else {
      var n := |b| - 1;
      PlayedInConcat(a, b[..n]);
      assert (a + b)[..|a + b| - 1] == a + b[..n];
    }
  }

  lemma {:induction false} NoneLostIsPlayed(log: seq<Passed>)
    requires forall i :: 0 <= i < |log| ==> log[i].Lost?
    ensures PlayedIn(log) == []
  {
    if log != [] { NoneLostIsPlayed(log[..|log| - 1]); }
  }

  lemma PeekKeepsSequence(r: Run, now: u64)
    requires Monotone(r)
    ensures InSequence(Step(r, DoPeek(now))) && Step(r, DoPeek(now)).rewound == 0
  {
    hide Plus, Off, Unique, Items, Peek, InSequence;
    var b, c := r.b, Peek(r.b, now).0;
    PeekKeepsAhead(b, now);
    PeekKeepsRest(b, now);
    OffSelf(b.nextSeq);
    if c.gaps > b.gaps {
      LostKeepsSequence(r, c);
    } else {
      SameKeepsSequence(r, Step(r, DoPeek(now)));
    }
  }

  lemma SameKeepsSequence(r: Run, r': Run)
    requires InSequence(r) && r'.log == r.log && r'.base == r.base && r'.b.played == r.b.played
    ensures InSequence(r')
  {
  }

  lemma LostKeepsSequence(r: Run, c: Buffer)
    requires InSequence(r) && c.gaps >= r.b.gaps && c.played == r.b.played
    requires r.b.nextSeq == Plus(r.base, |r.log|)
    ensures var lost := seq(c.gaps - r.b.gaps, i requires 0 <= i => Lost(Plus(r.b.nextSeq, i)));
            InSequence(r.(b := c, log := r.log + lost))
  {
    hide Plus;
    var lost := seq(c.gaps - r.b.gaps, i requires 0 <= i => Lost(Plus(r.b.nextSeq, i)));
    PlayedInConcat(r.log, lost);
    NoneLostIsPlayed(lost);
    forall i | 0 <= i < |lost|
      ensures PassedSeq(lost[i]) == Plus(r.base, |r.log| + i)
    {
      PlusAssoc(r.base, |r.log|, i);
    }
  }

  lemma PeekKeepsRest(b: Buffer, now: u64)
    ensures var c := Peek(b, now).0; c.slots == b.slots && c.played == b.played && c.pushed == b.pushed
  {
  }

  lemma OnePlayed(it: Item)
    ensures PlayedIn([Played(it)]) == [it]
  {
    assert [Played(it)][..0] == [];
  }

  lemma ConsumeKeepsSequence(r: Run)
    requires Monotone(r)
    ensures InSequence(Step(r, DoConsume))
  {
    hide Plus, Unique, Items, Ahead, Off, PlayedIn;
    var k := FindSeq(r.b.slots, r.b.nextSeq);
    if k < |r.b.slots| {
      var it := r.b.slots[k].value;
      PlayedInConcat(r.log, [Played(it)]);
      OnePlayed(it);
    }
  }

  lemma StepMonotone(r: Run, op: Op)
    requires Monotone(r) && (op.DoPush? ==> PushAhead(r, op.it))
    ensures Monotone(Step(r, op))
  {
    StepBalanced(r, op);
    hide InSequence, Ahead, Items, Unique;
    match op
    case DoPush(it) =>
      PushKeepsAhead(r.b, it);
      PushKeepsSequence(r, it);
    case DoPeek(now) =>
      PeekKeepsAhead(r.b, now);
      PeekKeepsSequence(r, now);
    case DoConsume =>
      ConsumeKeepsAhead(r.b);
      ConsumeKeepsSequence(r);
  }

  lemma PushKeepsSequence(r: Run, it: Item)
    requires Monotone(r)
    ensures InSequence(Step(r, DoPush(it)))
  {
    hide Plus, Unique, Items;
  }

  /** In a forward-only run every sequence number passed is played exactly once or counted lost
      exactly once, in strictly increasing order, and nothing is ever replayed. */
  lemma {:induction false} ForwardRunMonotone(targetDelay: u64, ops: seq<Op>)
    requires Forward(Start(targetDelay), ops)
    ensures Monotone(Steps(Start(targetDelay), ops))
  {
    var r := Start(targetDelay);
    if ops == [] {
      EmptyItems(0, targetDelay);
    } else {
      var n := |ops| - 1;
      assert forall i :: 0 <= i < n ==> ops[..n][..i] == ops[..i];
      ForwardRunMonotone(targetDelay, ops[..n]);
      StepMonotone(Steps(r, ops[..n]), ops[n]);
    }
  }

  /** Without that condition playout does go back: a push accepted behind the position is, once it has
      aged, the very next thing played, whatever else is buffered. */
  lemma LatePushRewinds(r: Run, it: Item, now: u64)
    requires Monotone(r) && !PushAhead(r, it) && Age(now, it.recvUs) >= r.b.targetDelay
    ensures Peek(Step(r, DoPush(it)).b, now).1 == Some(Clip(it))
    ensures Steps(r, [DoPush(it), DoPeek(now)]).rewound == Off(r.b.nextSeq, it.seqNo) > 0
    ensures !Monotone(Steps(r, [DoPush(it), DoPeek(now)]))
  {
    var ops := [DoPush(it), DoPeek(now)];
    var pushed := Step(r, DoPush(it));
    TwoSteps(r, ops);
    LateIsLeast(r.b, it);
    hide Items, Unique, Push, Least, InSequence, Balanced, Ahead, Steps;
    PeekRewinds(pushed, Clip(it), now);
  }

  lemma TwoSteps(r: Run, ops: seq<Op>)
    requires |ops| == 2
    ensures Steps(r, ops) == Step(Step(r, ops[0]), ops[1])
  {
    hide Step;
    var one := ops[..1];
    assert one[..0] == [];
    assert Steps(r, one) == Step(Steps(r, one[..0]), one[0]);
  }

  lemma PeekRewinds(r: Run, m: Item, now: u64)
    requires Least(r.b.slots) == Some(m) && SeqCmp(m.seqNo, r.b.nextSeq) < 0
    requires Age(now, m.recvUs) >= r.b.targetDelay
    ensures Peek(r.b, now) == (r.b.(nextSeq := m.seqNo), Some(m))
    ensures Step(r, DoPeek(now)).rewound == r.rewound + Off(r.b.nextSeq, m.seqNo) > r.rewound
  {
    hide Items, Least, Newest;
    LeastIsBuffered(r.b.slots);
  }

  /** A late item accepted into a buffer that is otherwise ahead is its serially least one. */
  lemma LateIsLeast(b: Buffer, it: Item)
    requires Unique(b.slots) && Ahead(b) && Push(b, it).1 == Ok
    requires b.pushed > 0 && SeqCmp(it.seqNo, b.nextSeq) < 0
    ensures Push(b, it).0 == b.(slots := Push(b, it).0.slots, pushed := b.pushed + 1)
    ensures Least(Push(b, it).0.slots) == Some(Clip(it))
  {
    hide Items, Unique, Least, Off, SeqCmp;
    var free := FindFree(b.slots);
    ItemsAdded(b.slots, free, Clip(it));
    var after := b.slots[free := Some(Clip(it))];
    OffSelf(it.seqNo);
    forall x | x in Items(after)
      ensures Off(x.seqNo, it.seqNo) < HALF
    {
      if x in Items(b.slots) { AheadOfLate(x.seqNo, it.seqNo, b.nextSeq); }
    }
    LeastIsFirst(after, it.seqNo);
    LeastIsBuffered(after);
    OffInjective(Least(after).value.seqNo, it.seqNo, it.seqNo);
    if Least(after).value != Clip(it) {
      UniqueItems(after, Least(after).value, Clip(it));
    }
  }

  lemma AheadOfLate(a: u32, late: u32, next: u32)
    requires Off(a, next) < MAX_SLOTS && -MAX_SLOTS < SeqCmp(late, next) < 0
    ensures Off(a, late) < HALF
  {
  }

  predicate NoPush(ops: seq<Op>) {
    forall k :: 0 <= k < |ops| ==> !ops[k].DoPush?
  }

  lemma {:induction false} PlayingKeepsMonotone(r: Run, ops: seq<Op>)
    requires Monotone(r) && NoPush(ops)
    ensures Monotone(Steps(r, ops))
  {
    hide Monotone, Step;
    if ops != [] {
      var n := |ops| - 1;
      PlayingKeepsMonotone(r, ops[..n]);
      StepMonotone(Steps(r, ops[..n]), ops[n]);
    }
  }

  /** The condition is exact: after a push, playout goes on passing each number once and in order,
      however it is played, if and only if the push was refused or not behind the position. */
  lemma MonotoneIff(r: Run, it: Item)
    requires Monotone(r)
    ensures (forall ops :: NoPush(ops) ==> Monotone(Steps(Step(r, DoPush(it)), ops))) <==> PushAhead(r, it)
  {
    var pushed := Step(r, DoPush(it));
    if PushAhead(r, it) {
      StepMonotone(r, DoPush(it));
      forall ops | NoPush(ops)
        ensures Monotone(Steps(pushed, ops))
      {
        PlayingKeepsMonotone(pushed, ops);
      }
    } else {
      hide Monotone, Step, Push, Peek;
      var now := (it.recvUs + r.b.targetDelay) % TWO64;
      AgedAt(it.recvUs, r.b.targetDelay);
      LatePushRewinds(r, it, now);
      TwoSteps(r, [DoPush(it), DoPeek(now)]);
      assert [DoPeek(now)][..0] == [];
      assert Steps(pushed, [DoPeek(now)]) == Step(Steps(pushed, []), DoPeek(now));
      assert !Monotone(Steps(pushed, [DoPeek(now)]));
    }
  }

  lemma AgedAt(recvUs: u64, delay: u64)
    ensures Age((recvUs + delay) % TWO64, recvUs) == delay
  {
  }
}
