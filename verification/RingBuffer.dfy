/** The fixed-capacity byte ring buffer with wrapping 64-bit cursors (src/core/ringbuf.c). */
module RingBuffer {
  import opened Words

  /** `is_pow2_or_zero`, which despite its name rejects zero. */
  predicate IsPow2(n: nat) {
    n == 1 || (n > 1 && n % 2 == 0 && IsPow2(n / 2))
  }

  // ---------------------------------------------------------------------------
  // Cursor arithmetic
  // ---------------------------------------------------------------------------

  /** Masking a cursor with `cap - 1`. */
  function Slot(cursor: nat, cap: nat): (i: nat)
    requires cap > 0
    ensures i < cap
  {
    cursor % cap
  }

  /** The slot `n` places after slot `i`, for `n` up to one round. */
  function Wrap(i: nat, n: nat, cap: nat): nat
    requires i < cap && n <= cap
  {
    if i + n < cap then i + n else i + n - cap
  }

  lemma Distribute(a: int, b: int, c: int)
    ensures (a - b) * c == a * c - b * c
    ensures (a + b) * c == a * c + b * c
  {
  }

  lemma DivMod(n: nat, c: nat)
    requires c > 0
    ensures n == n / c * c + n % c && n % c < c
  {
  }

  /** Division with rest is unique. */
  lemma RestIs(n: nat, q: nat, r: nat, c: nat)
    requires c > 0 && n == q * c + r && r < c
    ensures n % c == r
  {
    DivMod(n, c);
    var k := n / c;
    if k < q {
      Distribute(q, k, c);
      AtLeast(q - k, c);
    } else if k > q {
      Distribute(k, q, c);
      AtLeast(k - q, c);
    }
  }

  lemma {:induction false} Pow2Divides(c: nat, n: nat)
    requires IsPow2(c) && IsPow2(n) && c <= n
    ensures n / c * c == n
    decreases n
  {
    if c > 1 {
      Pow2Divides(c / 2, n / 2);
      var q := (n / 2) / (c / 2);
      assert q * (c / 2) == n / 2;
      assert q * c == q * (c / 2) + q * (c / 2) by { Halves(q, c); }
      RestIs(n, q, 0, c);
      DivMod(n, c);
    } else {
      DivMod(n, c);
    }
  }

  lemma Halves(q: nat, c: nat)
    requires c % 2 == 0
    ensures q * c == q * (c / 2) + q * (c / 2)
  {
    assert c == c / 2 + c / 2;
  }

  lemma Double(n: nat)
    requires IsPow2(n)
    ensures IsPow2(2 * n)
  {
    assert n > 0;
    assert 2 * n / 2 == n && 2 * n % 2 == 0;
  }

  lemma Times16(n: nat)
    requires IsPow2(n)
    ensures IsPow2(16 * n)
  {
    hide IsPow2;
    Double(n);
    Double(2 * n);
    Double(4 * n);
    Double(8 * n);
  }

  lemma SizePow2()
    ensures IsPow2(TWO64)
  {
    hide IsPow2;
    One();
    Times16(1); Times16(0x10); Times16(0x100); Times16(0x1000);
    Times16(0x1_0000); Times16(0x10_0000); Times16(0x100_0000); Times16(0x1000_0000);
    Times16(0x1_0000_0000); Times16(0x10_0000_0000); Times16(0x100_0000_0000); Times16(0x1000_0000_0000);
    Times16(0x1_0000_0000_0000); Times16(0x10_0000_0000_0000); Times16(0x100_0000_0000_0000);
    Times16(0x1000_0000_0000_0000);
  }

  lemma One()
    ensures IsPow2(1)
  {
  }

  lemma SlotAdd(a: nat, n: nat, cap: nat)
    requires cap > 0 && n <= cap
    ensures Slot(a + n, cap) == Wrap(Slot(a, cap), n, cap)
  {
    DivMod(a, cap);
    var k, i := a / cap, a % cap;
    if i + n < cap {
      RestIs(a + n, k, i + n, cap);
    } else {
      Distribute(k, 1, cap);
      RestIs(a + n, k + 1, i + n - cap, cap);
    }
  }

  lemma SlotSub(y: nat, m: nat, cap: nat)
    requires cap > 0 && y >= m && m / cap * cap == m
    ensures Slot(y - m, cap) == Slot(y, cap)
  {
    DivMod(y, cap);
    var k, q := y / cap, m / cap;
    Distribute(k, q, cap);
    if k < q {
      Distribute(q, k, cap);
      AtLeast(q - k, cap);
    }
    RestIs(y - m, k - q, y % cap, cap);
  }

  /** Advancing a cursor, even across the 64-bit wrap, advances its slot around the ring. */
  lemma Advance(cursor: u64, n: nat, cap: nat)
    requires IsPow2(cap) && 0 < cap < TWO64 && n <= cap
    ensures Slot((cursor + n) % TWO64, cap) == Wrap(Slot(cursor, cap), n, cap)
  {
    hide IsPow2, Slot;
    SlotAdd(cursor, n, cap);
    if cursor + n >= TWO64 {
      SizePow2();
      Pow2Divides(cap, TWO64);
      SlotSub(cursor + n, TWO64, cap);
    }
  }

  // ---------------------------------------------------------------------------
  // The buffer as a bounded queue of bytes
  // ---------------------------------------------------------------------------

  function Min(a: nat, b: nat): nat {
    if a < b then a else b
  }

  /** The `n` bytes from slot `t` on, around the ring. */
  function Window(d: seq<Byte>, t: nat, n: nat): (s: seq<Byte>)
    requires t < |d| && n <= |d|
    ensures |s| == n
    ensures forall i :: 0 <= i < n ==> s[i] == d[Wrap(t, i, |d|)]
  {
    seq(n, i requires 0 <= i < n => d[Wrap(t, i, |d|)])
  }

  /** `before` with `src` stored from slot `h` on, around the ring. */
  function Stored(before: seq<Byte>, h: nat, src: seq<Byte>): (after: seq<Byte>)
    requires h < |before| && |src| <= |before|
    ensures |after| == |before|
  {
    var n1 := Min(|src|, |before| - h);
    src[n1..] + before[|src| - n1..h] + src[..n1] + before[h + n1..]
  }

  lemma StoredAppends(before: seq<Byte>, t: nat, n: nat, src: seq<Byte>)
    requires t < |before| && n + |src| <= |before|
    ensures Window(Stored(before, Wrap(t, n, |before|), src), t, n + |src|) == Window(before, t, n) + src
  {
    var h := Wrap(t, n, |before|);
    var after := Stored(before, h, src);
    var w := Window(after, t, n + |src|);
    forall i | 0 <= i < n + |src|
      ensures w[i] == (Window(before, t, n) + src)[i]
    {
      var k := Wrap(t, i, |before|);
      assert w[i] == after[k];
    }
  }

  lemma WindowDrop(d: seq<Byte>, t: nat, n: nat, k: nat)
    requires t < |d| && k <= n <= |d|
    ensures Window(d, Wrap(t, k, |d|), n - k) == Window(d, t, n)[k..]
  {
  }

  /** The two copies of `vmc_ringbuf_write`. */
  method StoreAround(data: array<Byte>, h: nat, src: seq<Byte>)
    requires h < data.Length && |src| <= data.Length
    modifies data
    ensures data[..] == Stored(old(data[..]), h, src)
  {
    var n1 := Min(|src|, data.Length - h);
    ghost var before := data[..];
    CopyInto(data, h, src[..n1]);
    if |src| > n1 {
      ghost var middle := data[..];
      CopyInto(data, 0, src[n1..]);
      StoredTwice(before, middle, data[..], h, src);
    } else {
      StoredOnce(before, data[..], h, src);
    }
  }

  lemma StoredOnce(before: seq<Byte>, after: seq<Byte>, h: nat, src: seq<Byte>)
    requires h + |src| <= |before| && h < |before|
    requires after == before[..h] + src[..|src|] + before[h + |src|..]
    ensures after == Stored(before, h, src)
  {
  }

  lemma StoredTwice(before: seq<Byte>, middle: seq<Byte>, after: seq<Byte>, h: nat, src: seq<Byte>)
    requires h < |before| && |before| - h < |src| <= |before|
    requires var n1 := |before| - h;
             && middle == before[..h] + src[..n1] + before[h + n1..]
             && after == middle[..0] + src[n1..] + middle[|src| - n1..]
    ensures after == Stored(before, h, src)
  {
    var n1 := |before| - h;
    assert middle[|src| - n1..] == before[|src| - n1..h] + src[..n1];
  }

  class Ring {
    const data: array<Byte>
    var head: u64
    var tail: u64
    var count: nat

    ghost predicate Valid()
      reads this
    {
      && IsPow2(data.Length) && data.Length < TWO64 && count <= data.Length
      && Slot(head, data.Length) == Wrap(Slot(tail, data.Length), count, data.Length)
    }

    ghost function Contents(): (s: seq<Byte>)
      requires Valid()
      reads this, data
      ensures |s| == count
    {
      Window(data[..], Slot(tail, data.Length), count)
    }

    /** `vmc_ringbuf_init` on storage whose size it accepts. */
    constructor (storage: array<Byte>)
      requires IsPow2(storage.Length) && storage.Length < TWO64
      ensures Valid() && data == storage && Contents() == []
    {
      data := storage;
      head, tail, count := 0, 0, 0;
    }

    method Reset()
      requires Valid()
      modifies this
      ensures Valid() && Contents() == []
    {
      head, tail, count := 0, 0, 0;
    }

    /** Accepts exactly as much as fits. */
    method Write(src: seq<Byte>) returns (len: nat)
      requires Valid()
      modifies this, data
      ensures Valid()
      ensures len == Min(|src|, data.Length - old(|Contents()|))
      ensures Contents() == old(Contents()) + src[..len]
    {
      if |src| == 0 {
        return 0;
      }
      len := Min(|src|, data.Length - count);
      StoreAround(data, Slot(head, data.Length), src[..len]);
      StoredAppends(old(data[..]), Slot(tail, data.Length), count, src[..len]);
      Advance(head, len, data.Length);
      head := (head + len) % TWO64;
      count := count + len;
    }

    /** `n` bytes from the tail on, the two copies of read and peek. */
    method CopyOut(n: nat) returns (out: seq<Byte>)
      requires Valid() && n <= count
      ensures out == Contents()[..n]
    {
      var t := Slot(tail, data.Length);
      var first := data.Length - t;
      var n1 := Min(n, first);
      out := data[t..t + n1];
      if n > n1 {
        out := out + data[..n - n1];
      }
    }

    method Read(len: nat) returns (out: seq<Byte>)
      requires Valid()
      modifies this
      ensures Valid()
      ensures out == old(Contents())[..Min(len, old(|Contents()|))]
      ensures Contents() == old(Contents())[|out|..]
    {
      var n := Min(len, count);
      if n == 0 {
        return [];
      }
      out := CopyOut(n);
      WindowDrop(data[..], Slot(tail, data.Length), count, n);
      Advance(tail, n, data.Length);
      tail := (tail + n) % TWO64;
      count := count - n;
    }

    method Peek(len: nat) returns (out: seq<Byte>)
      requires Valid()
      ensures out == Contents()[..Min(len, |Contents()|)]
    {
      var n := Min(len, count);
      if n == 0 {
        return [];
      }
      out := CopyOut(n);
    }

    method Discard(len: nat) returns (n: nat)
      requires Valid()
      modifies this
      ensures Valid() && n == Min(len, old(|Contents()|))
      ensures Contents() == old(Contents())[n..]
    {
      n := Min(len, count);
      WindowDrop(data[..], Slot(tail, data.Length), count, n);
      Advance(tail, n, data.Length);
      tail := (tail + n) % TWO64;
      count := count - n;
    }
  }

  /** `vmc_ringbuf_init`: refuses a capacity that is not a power of two. */
  method Init(storage: array<Byte>) returns (r: Option<Ring>)
    requires storage.Length < TWO64
    ensures r.Some? <==> IsPow2(storage.Length)
    ensures r.Some? ==> fresh(r.value) && r.value.Valid() && r.value.data == storage && r.value.Contents() == []
  {
    if !IsPow2(storage.Length) {
      return None;
    }
    var ring := new Ring(storage);
    r := Some(ring);
  }

  // ---------------------------------------------------------------------------
  // Whole runs
  // ---------------------------------------------------------------------------

  datatype Op = DoWrite(src: seq<Byte>) | DoRead(len: nat) | DoDiscard(len: nat) | DoPeek(len: nat)

  /** The queue, everything accepted and taken out so far, and what the peeks returned. */
  datatype Run = Run(queue: seq<Byte>, accepted: seq<Byte>, taken: seq<Byte>, shown: seq<seq<Byte>>)

  /** The effect the methods above promise, on a ring of `cap` bytes. */
  function Step(r: Run, cap: nat, op: Op): Run
    requires |r.queue| <= cap
  {
    match op
    case DoWrite(src) =>
      var n := Min(|src|, cap - |r.queue|);
      Run(r.queue + src[..n], r.accepted + src[..n], r.taken, r.shown)
    case DoRead(len) =>
      var n := Min(len, |r.queue|);
      Run(r.queue[n..], r.accepted, r.taken + r.queue[..n], r.shown)
    case DoDiscard(len) =>
      var n := Min(len, |r.queue|);
      Run(r.queue[n..], r.accepted, r.taken + r.queue[..n], r.shown)
    case DoPeek(len) => r.(shown := r.shown + [r.queue[..Min(len, |r.queue|)]])
  }

  function Steps(cap: nat, ops: seq<Op>): (r: Run)
    ensures |r.queue| <= cap
    ensures r.accepted == r.taken + r.queue
  {
    if ops == [] then Run([], [], [], [])
    else
      var r := Steps(cap, ops[..|ops| - 1]);
      assert forall n :: 0 <= n <= |r.queue| ==> r.taken + r.queue == (r.taken + r.queue[..n]) + r.queue[n..];
      Step(r, cap, ops[|ops| - 1])
  }

  /** One operation on the ring: what it accepts, takes out and shows. */
  method RunOp(ring: Ring, ghost r: Run, op: Op)
    returns (accepted: seq<Byte>, taken: seq<Byte>, shown: seq<seq<Byte>>)
    requires ring.Valid() && r.queue == ring.Contents()
    modifies ring, ring.data
    ensures ring.Valid() && |r.queue| <= ring.data.Length
    ensures Step(r, ring.data.Length, op)
         == Run(ring.Contents(), r.accepted + accepted, r.taken + taken, r.shown + shown)
  {
    hide Step, Min, Window, IsPow2, Slot;
    accepted, taken, shown := [], [], [];
    NothingAdded(r);
    match op {
      case DoWrite(src) =>
        StepWrite(r, ring.data.Length, src);
        var n := ring.Write(src);
        accepted := src[..n];
      case DoRead(len) =>
        taken := ring.Read(len);
        StepTake(r, ring.data.Length, len);
      case DoDiscard(len) =>
        taken := ring.Peek(len);
        var n := ring.Discard(len);
        StepTake(r, ring.data.Length, len);
      case DoPeek(len) =>
        var out := ring.Peek(len);
        shown := [out];
        StepPeek(r, ring.data.Length, len);
    }
  }

  lemma NothingAdded(r: Run)
    ensures r.accepted + [] == r.accepted && r.taken + [] == r.taken && r.shown + [] == r.shown
  {
  }

  lemma StepWrite(r: Run, cap: nat, src: seq<Byte>)
    requires |r.queue| <= cap
    ensures var n := Min(|src|, cap - |r.queue|);
            && n <= |src|
            && Step(r, cap, DoWrite(src)) == r.(queue := r.queue + src[..n], accepted := r.accepted + src[..n])
  {
  }

  lemma StepTake(r: Run, cap: nat, len: nat)
    requires |r.queue| <= cap
    ensures var n := Min(len, |r.queue|);
            && n <= |r.queue|
            && Step(r, cap, DoRead(len)) == r.(queue := r.queue[n..], taken := r.taken + r.queue[..n])
            && Step(r, cap, DoDiscard(len)) == Step(r, cap, DoRead(len))
  {
  }

  lemma StepPeek(r: Run, cap: nat, len: nat)
    requires |r.queue| <= cap
    ensures var n := Min(len, |r.queue|);
            n <= |r.queue| && Step(r, cap, DoPeek(len)) == r.(shown := r.shown + [r.queue[..n]])
  {
  }

  /** Any sequence of operations on a ring buffer, the cursors wrapping as they may: the bytes that came
      out are a prefix of the bytes accepted, the rest is still in the ring, every write accepts as much
      as fits, and every peek shows what is next. */
  method RunOps(ring: Ring, ops: seq<Op>) returns (accepted: seq<Byte>, taken: seq<Byte>, shown: seq<seq<Byte>>)
    requires ring.Valid() && ring.Contents() == []
    modifies ring, ring.data
    ensures ring.Valid()
    ensures Run(ring.Contents(), accepted, taken, shown) == Steps(ring.data.Length, ops)
    ensures accepted == taken + ring.Contents()
  {
    hide Step, Steps;
    accepted, taken, shown := [], [], [];
    NoSteps(ring.data.Length);
    for k := 0 to |ops|
      invariant ring.Valid()
      invariant Run(ring.Contents(), accepted, taken, shown) == Steps(ring.data.Length, ops[..k])
    {
      LastStep(ring.data.Length, ops[..k + 1]);
      assert ops[..k + 1][..k] == ops[..k];
      var a, t, s := RunOp(ring, Run(ring.Contents(), accepted, taken, shown), ops[k]);
      accepted, taken, shown := accepted + a, taken + t, shown + s;
    }
    assert ops[..|ops|] == ops;
  }

  lemma NoSteps(cap: nat)
    ensures Steps(cap, []) == Run([], [], [], [])
  {
  }

  lemma LastStep(cap: nat, ops: seq<Op>)
    requires ops != []
    ensures Steps(cap, ops) == Step(Steps(cap, ops[..|ops| - 1]), cap, ops[|ops| - 1])
  {
    hide Step;
  }
}
