/** The fixed-slot reorder buffer with wrapping 32-bit sequence numbers (src/transport/jitter_buffer.c). */
module JitterBuffer {
  import opened Words

  const MAX_SLOTS: int := 256
  const PAYLOAD_CAP: nat := 1408
  const HALF: int := 0x8000_0000

  // ---------------------------------------------------------------------------
  // Wrapping arithmetic
  // ---------------------------------------------------------------------------

  /** Unsigned 32-bit difference. */
  function Off(a: u32, b: u32): u32 {
    (a - b) % TWO32
  }

  /** `seq_cmp`: the difference read as a signed 32-bit number. */
  function SeqCmp(a: u32, b: u32): (d: int)
    ensures -HALF <= d < HALF
  {
    if Off(a, b) < HALF then Off(a, b) else Off(a, b) - TWO32
  }

  function Plus(a: u32, n: int): u32 {
    (a + n) % TWO32
  }

  /** Unsigned 64-bit difference of two clock readings. */
  function Age(now: u64, then_: u64): u64 {
    (now - then_) % TWO64
  }

  // ---------------------------------------------------------------------------
  // The buffer as a function on its state
  // ---------------------------------------------------------------------------

  datatype Item = Item(seqNo: u32, tsUs: u32, stream: Byte, flags: Byte, payload: seq<Byte>, recvUs: u64)

  type Slots = seq<Option<Item>>

  datatype Buffer = Buffer(
    slots: Slots, nextSeq: u32, targetDelay: u64,
    pushed: nat, played: nat, late: nat, dupe: nat, gaps: nat)

  function Empty(nextSeq: u32, targetDelay: u64): Buffer {
    Buffer(seq(MAX_SLOTS, _ => None), nextSeq, targetDelay, 0, 0, 0, 0, 0)
  }

  /** The lowest index from `i` on whose slot holds `seqNo`, or the number of slots. */
  function FindSeq(slots: Slots, seqNo: u32, i: nat := 0): (k: nat)
    requires i <= |slots|
    ensures i <= k <= |slots|
    ensures k < |slots| ==> slots[k].Some? && slots[k].value.seqNo == seqNo
    ensures forall j :: i <= j < k ==> !(slots[j].Some? && slots[j].value.seqNo == seqNo)
    decreases |slots| - i
  {
    if i == |slots| || (slots[i].Some? && slots[i].value.seqNo == seqNo) then i else FindSeq(slots, seqNo, i + 1)
  }

  function FindFree(slots: Slots, i: nat := 0): (k: nat)
    requires i <= |slots|
    ensures i <= k <= |slots|
    ensures k < |slots| ==> slots[k].None?
    ensures forall j :: i <= j < k ==> slots[j].Some?
    decreases |slots| - i
  {
    if i == |slots| || slots[i].None? then i else FindFree(slots, i + 1)
  }

  /** The scan for the serially least item: a later slot wins only if it compares below. */
  function Least(slots: Slots): Option<Item> {
    if slots == [] then None
    else
      var m, s := Least(slots[..|slots| - 1]), slots[|slots| - 1];
      if s.Some? && (m.None? || SeqCmp(s.value.seqNo, m.value.seqNo) < 0) then s else m
  }

  /** The scan for the most recent arrival. */
  function Newest(slots: Slots): Option<Item> {
    if slots == [] then None
    else
      var m, s := Newest(slots[..|slots| - 1]), slots[|slots| - 1];
      if s.Some? && (m.None? || s.value.recvUs > m.value.recvUs) then s else m
  }

  function Clip(it: Item): Item {
    if |it.payload| <= PAYLOAD_CAP then it else it.(payload := it.payload[..PAYLOAD_CAP])
  }

  function Push(b: Buffer, it: Item): (Buffer, Status) {
    var c := if b.pushed == 0 then b.(nextSeq := it.seqNo) else b;
    var fwd := SeqCmp(it.seqNo, c.nextSeq);
    var free := FindFree(c.slots);
    if FindSeq(c.slots, it.seqNo) < |c.slots| then (c.(dupe := c.dupe + 1), Again)
    else if fwd >= MAX_SLOTS || fwd <= -MAX_SLOTS then (c.(late := c.late + 1), OutOfSync)
    else if free == |c.slots| then (c.(late := c.late + 1), Overrun)
    else (c.(slots := c.slots[free := Some(Clip(it))], pushed := c.pushed + 1), Ok)
  }

  function Peek(b: Buffer, now: u64): (Buffer, Option<Item>) {
    var min, newest := Least(b.slots), Newest(b.slots);
    if min.None? || newest.None? then (b, None)
    else
      var aged := Age(now, min.value.recvUs) >= b.targetDelay;
      var cmp := SeqCmp(min.value.seqNo, b.nextSeq);
      if cmp < 0 then
        if aged then (b.(nextSeq := min.value.seqNo), min) else (b, None)
      else if cmp > 0 then
        if Age(now, newest.value.recvUs) >= b.targetDelay then
          (b.(gaps := b.gaps + Off(min.value.seqNo, b.nextSeq), nextSeq := min.value.seqNo),
           if aged then min else None)
        else (b, None)
      else (b, if aged then min else None)
  }

  function Consume(b: Buffer): Buffer {
    var k := FindSeq(b.slots, b.nextSeq);
    if k == |b.slots| then b
    else b.(slots := b.slots[k := None], nextSeq := Plus(b.nextSeq, 1), played := b.played + 1)
  }

  // ---------------------------------------------------------------------------
  // The code
  // ---------------------------------------------------------------------------

  class Jitter {
    var slots: array<Option<Item>>
    var nextSeq: u32
    var targetDelay: u64
    var pushed: nat
    var played: nat
    var late: nat
    var dupe: nat
    var gaps: nat

    ghost predicate Valid()
      reads this
    {
      slots.Length == MAX_SLOTS
    }

    ghost function State(): Buffer
      reads this, slots
    {
      Buffer(slots[..], nextSeq, targetDelay, pushed, played, late, dupe, gaps)
    }

    /** `vmc_jb_init`. */
    constructor (targetDelay: u64)
      ensures Valid() && fresh(slots) && State() == Empty(0, targetDelay)
    {
      slots := new Option<Item>[MAX_SLOTS](_ => None);
      nextSeq, this.targetDelay := 0, targetDelay;
      pushed, played, late, dupe, gaps := 0, 0, 0, 0, 0;
    }

    /** `vmc_jb_reset`: the whole structure is zeroed, the target delay with it. */
    method Reset(firstSeq: u32)
      requires Valid()
      modifies this, slots
      ensures Valid() && slots == old(slots) && State() == Empty(firstSeq, 0)
    {
      forall i | 0 <= i < slots.Length {
        slots[i] := None;
      }
      nextSeq, targetDelay := firstSeq, 0;
      pushed, played, late, dupe, gaps := 0, 0, 0, 0, 0;
    }

    method FindSlot(seqNo: u32) returns (k: nat)
      requires Valid()
      ensures k == FindSeq(slots[..], seqNo)
    {
      k := 0;
      while k < slots.Length && !(slots[k].Some? && slots[k].value.seqNo == seqNo)
        invariant k <= slots.Length
        invariant FindSeq(slots[..], seqNo) == FindSeq(slots[..], seqNo, k)
      {
        k := k + 1;
      }
    }

    method PushItem(it: Item) returns (status: Status)
      requires Valid()
      modifies this, slots
      ensures Valid() && slots == old(slots)
      ensures (State(), status) == Push(old(State()), it)
    {
      if pushed == 0 {
        nextSeq := it.seqNo;
      }
      var found := FindSlot(it.seqNo);
      if found < slots.Length {
        dupe := dupe + 1;
        return Again;
      }
      var fwd := SeqCmp(it.seqNo, nextSeq);
      if fwd >= MAX_SLOTS || fwd <= -MAX_SLOTS {
        late := late + 1;
        return OutOfSync;
      }
      var k := 0;
      while k < slots.Length && slots[k].Some?
        invariant k <= slots.Length
        invariant FindFree(slots[..]) == FindFree(slots[..], k)
      {
        k := k + 1;
      }
      if k == slots.Length {
        late := late + 1;
        return Overrun;
      }
      slots[k] := Some(Clip(it));
      pushed := pushed + 1;
      status := Ok;
    }

    method PeekItem(now: u64) returns (r: Option<Item>)
      requires Valid()
      modifies this
      ensures Valid() && slots == old(slots)
      ensures (State(), r) == Peek(old(State()), now)
    {
      var min: Option<Item>, newest: Option<Item> := None, None;
      for i := 0 to slots.Length
        invariant min == Least(slots[..i]) && newest == Newest(slots[..i])
        invariant min.Some? <==> newest.Some?
      {
        assert slots[..i + 1][..i] == slots[..i];
        var s := slots[i];
        if s.Some? {
          if min.None? || SeqCmp(s.value.seqNo, min.value.seqNo) < 0 { min := s; }
          if newest.None? || s.value.recvUs > newest.value.recvUs { newest := s; }
        }
      }
      assert slots[..slots.Length] == slots[..];
      if min.None? {
        return None;
      }
      if SeqCmp(min.value.seqNo, nextSeq) < 0 {
        if Age(now, min.value.recvUs) >= targetDelay {
          nextSeq := min.value.seqNo;
          return min;
        }
        return None;
      }
      if SeqCmp(min.value.seqNo, nextSeq) > 0 {
        if Age(now, newest.value.recvUs) >= targetDelay {
          gaps := gaps + Off(min.value.seqNo, nextSeq);
          nextSeq := min.value.seqNo;
          if Age(now, min.value.recvUs) >= targetDelay {
            return min;
          }
        }
        return None;
      }
      if Age(now, min.value.recvUs) >= targetDelay {
        return min;
      }
      r := None;
    }

    method ConsumeItem()
      requires Valid()
      modifies this, slots
      ensures Valid() && slots == old(slots)
      ensures State() == Consume(old(State()))
    {
      var k := FindSlot(nextSeq);
      if k == slots.Length {
        return;
      }
      slots[k] := None;
      nextSeq := Plus(nextSeq, 1);
      played := played + 1;
    }
  }

  // ---------------------------------------------------------------------------
  // The slots as a set of items
  // ---------------------------------------------------------------------------

  function Items(slots: Slots): set<Item> {
    set i | 0 <= i < |slots| && slots[i].Some? :: slots[i].value
  }

  /** No sequence number is buffered twice. */
  ghost predicate Unique(slots: Slots) {
    forall i, j :: 0 <= i < j < |slots| && slots[i].Some? && slots[j].Some? ==>
                     slots[i].value.seqNo != slots[j].value.seqNo
  }

  lemma ItemsAdded(slots: Slots, k: nat, it: Item)
    requires k < |slots| && slots[k].None?
    requires FindSeq(slots, it.seqNo) == |slots| && Unique(slots)
    ensures Items(slots[k := Some(it)]) == Items(slots) + {it} && it !in Items(slots)
    ensures Unique(slots[k := Some(it)])
  {
    var after := slots[k := Some(it)];
    assert after[k].value == it;
    forall x | x in Items(slots)
      ensures x in Items(after)
    {
      var i :| 0 <= i < |slots| && slots[i].Some? && slots[i].value == x;
      assert after[i] == slots[i];
    }
  }

  lemma ItemsRemoved(slots: Slots, k: nat)
    requires k < |slots| && slots[k].Some? && Unique(slots)
    ensures Items(slots[k := None]) == Items(slots) - {slots[k].value} && slots[k].value in Items(slots)
    ensures Unique(slots[k := None])
  {
    var after := slots[k := None];
    forall x | x in Items(slots) && x != slots[k].value
      ensures x in Items(after)
    {
      var i :| 0 <= i < |slots| && slots[i].Some? && slots[i].value == x;
      assert after[i] == slots[i];
    }
    forall x | x in Items(after)
      ensures x in Items(slots) && x != slots[k].value
    {
      var i :| 0 <= i < |after| && after[i].Some? && after[i].value == x;
      assert after[i] == slots[i];
    }
  }

  lemma {:induction false} LeastIsBuffered(slots: Slots)
    ensures Least(slots).Some? <==> Items(slots) != {}
    ensures Least(slots).Some? <==> Newest(slots).Some?
    ensures Least(slots).Some? ==> Least(slots).value in Items(slots)
    ensures Newest(slots).Some? ==> Newest(slots).value in Items(slots)
  {
    if slots != [] {
      var n := |slots| - 1;
      LeastIsBuffered(slots[..n]);
      ItemsSnoc(slots);
    }
  }

  lemma ItemsSnoc(slots: Slots)
    requires slots != []
    ensures Items(slots) == Items(slots[..|slots| - 1])
                            + if slots[|slots| - 1].Some? then {slots[|slots| - 1].value} else {}
  {
    var n := |slots| - 1;
    forall x | x in Items(slots)
      ensures x in Items(slots[..n]) || (slots[n].Some? && x == slots[n].value)
    {
      var i :| 0 <= i < |slots| && slots[i].Some? && slots[i].value == x;
      if i < n { assert slots[..n][i] == slots[i]; }
    }
    forall x | x in Items(slots[..n])
      ensures x in Items(slots)
    {
      var i :| 0 <= i < n && slots[..n][i].Some? && slots[..n][i].value == x;
      assert slots[i].value == x;
    }
  }

  /** An item is only ever handed out after the target delay, and playout then stands at it. */
  lemma PlayedIsHeld(b: Buffer, now: u64)
    requires Peek(b, now).1.Some?
    ensures var (after, Some(it)) := Peek(b, now);
            it in Items(b.slots) && Age(now, it.recvUs) >= b.targetDelay
            && after.nextSeq == it.seqNo && after.slots == b.slots
  {
    LeastIsBuffered(b.slots);
    var m := Least(b.slots).value.seqNo;
    assert SeqCmp(m, b.nextSeq) == 0 ==> m == b.nextSeq;
  }
}
