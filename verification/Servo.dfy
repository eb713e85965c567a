/** The A/V alignment servo of the present worker (apps/thinclient/main.c). */
module Servo {
  const GATE: int := 500000
  const LIMIT: int := 200000

  /** C's division, which truncates toward zero. */
  function Div8(x: int): int {
    if x >= 0 then x / 8 else -((-x) / 8)
  }

  function Clamp(x: int): int {
    if x < -LIMIT then -LIMIT else if x > LIMIT then LIMIT else x
  }

  /** The shift after measuring the offset `off` at a flip. */
  function Next(shift: int, off: int): int {
    if -GATE < off < GATE then Clamp(shift - Div8(off)) else shift
  }

  class SyncServo {
    var shift: int

    constructor ()
      ensures shift == 0
    {
      shift := 0;
    }

    /** The update after a completed flip of a frame with presentation time `pts` at audio position
        `apos`. */
    method OnFlip(pts: int, apos: int)
      modifies this
      ensures shift == Next(old(shift), pts - apos)
    {
      var off := pts - apos;
      if off > -GATE && off < GATE {
        shift := shift - Div8(off);
        if shift < -LIMIT { shift := -LIMIT; }
        if shift > LIMIT { shift := LIMIT; }
      }
    }
  }

  // ---------------------------------------------------------------------------
  // The closed loop: the offset is a constant bias plus the shift
  // ---------------------------------------------------------------------------

  function Shift(b: int, k: nat): int {
    if k == 0 then 0 else Next(Shift(b, k - 1), b + Shift(b, k - 1))
  }

  /** The offset measured at the `k`-th flip. */
  function Offset(b: int, k: nat): int {
    b + Shift(b, k)
  }

  function Abs(x: int): nat {
    if x < 0 then -x else x
  }

  lemma NextMirrored(shift: int, off: int)
    ensures Next(-shift, -off) == -Next(shift, off)
  {
  }

  lemma {:induction false} Mirrored(b: int, k: nat)
    ensures Shift(-b, k) == -Shift(b, k)
  {
    hide Next;
    if k > 0 {
      Mirrored(b, k - 1);
      NextMirrored(Shift(b, k - 1), b + Shift(b, k - 1));
    }
  }

  /** From a bias of at least zero the offset comes down to no less than what the limit leaves. */
  lemma {:induction false} Downwards(b: int, k: nat)
    requires 0 <= b < GATE
    ensures -LIMIT <= Shift(b, k) <= 0 && 0 <= Offset(b, k) <= b
    ensures b <= LIMIT + 7 && Offset(b, k) >= 8 ==> Offset(b, k + 1) < Offset(b, k)
    ensures Offset(b, k) <= 7 ==> Offset(b, k + 1) == Offset(b, k)
    ensures b <= LIMIT ==> -LIMIT <= Shift(b, k) - Div8(Offset(b, k)) <= LIMIT
  {
    if k > 0 { Downwards(b, k - 1); }
  }

  lemma Div8Mirrored(x: int)
    ensures Div8(-x) == -Div8(x)
  {
  }

  lemma BothSides(b: int, k: nat)
    requires -GATE < b < GATE
    ensures -LIMIT <= Shift(b, k) <= LIMIT && Abs(Offset(b, k)) <= Abs(b)
    ensures (b >= 0 ==> Offset(b, k) >= 0) && (b <= 0 ==> Offset(b, k) <= 0)
    ensures Abs(b) <= LIMIT + 7 && Abs(Offset(b, k)) >= 8 ==> Abs(Offset(b, k + 1)) < Abs(Offset(b, k))
    ensures Abs(Offset(b, k)) <= 7 ==> Offset(b, k + 1) == Offset(b, k)
    ensures Abs(b) <= LIMIT ==> -LIMIT <= Shift(b, k) - Div8(Offset(b, k)) <= LIMIT
  {
    hide Shift, Div8, Offset;
    if b >= 0 {
      Downwards(b, k);
      Downwards(b, k + 1);
    } else {
      Downwards(-b, k);
      Downwards(-b, k + 1);
      OffsetMirrored(b, k);
      OffsetMirrored(b, k + 1);
      Mirrored(b, k);
      Div8Mirrored(Offset(b, k));
    }
  }

  lemma OffsetMirrored(b: int, k: nat)
    ensures Offset(-b, k) == -Offset(b, k)
  {
    hide Shift;
    Mirrored(b, k);
  }

  /** For a bias within the limit the offset never changes sign, its size strictly falls while it is
      eight or more, it then stays, and the clamp never engages. */
  lemma Converges(b: int, k: nat)
    requires Abs(b) <= LIMIT
    ensures (b >= 0 ==> Offset(b, k) >= 0) && (b <= 0 ==> Offset(b, k) <= 0)
    ensures Abs(Offset(b, k)) >= 8 ==> Abs(Offset(b, k + 1)) < Abs(Offset(b, k))
    ensures Abs(Offset(b, k)) <= 7 ==> Offset(b, k + 1) == Offset(b, k)
    ensures Shift(b, k + 1) == Shift(b, k) - Div8(Offset(b, k))
  {
    BothSides(b, k);
  }

  lemma {:induction false} FallsBelow(b: int, k: nat)
    requires Abs(b) <= LIMIT + 7
    ensures Abs(Offset(b, k)) <= 7 || Abs(Offset(b, k)) + k <= Abs(b)
  {
    if k > 0 {
      FallsBelow(b, k - 1);
      BothSides(b, k - 1);
    }
  }

  lemma {:induction false} Saturates(b: int, k: nat)
    requires Abs(b) > LIMIT + 7
    ensures Abs(Offset(b, k)) >= 8
  {
    if -GATE < b < GATE {
      BothSides(b, k);
    } else if k > 0 {
      Idle(b, k);
    }
  }

  lemma {:induction false} Idle(b: int, k: nat)
    requires !(-GATE < b < GATE)
    ensures Shift(b, k) == 0
  {
    if k > 0 { Idle(b, k - 1); }
  }

  /** From flip `k0` on the offset stays within 7 us. */
  ghost predicate Settled(b: int, k0: nat) {
    forall k: nat :: k >= k0 ==> Abs(Offset(b, k)) <= 7
  }

  /** The loop brings the offset to within 7 us, for good, if and only if the bias exceeds the limit of
      the shift by at most 7. */
  lemma SettlesIff(b: int)
    ensures (exists k0: nat :: Settled(b, k0)) <==> Abs(b) <= LIMIT + 7
  {
    if Abs(b) <= LIMIT + 7 {
      forall k: nat | k >= Abs(b)
        ensures Abs(Offset(b, k)) <= 7
      {
        FallsBelow(b, k);
      }
      assert Settled(b, Abs(b));
    } else {
      forall k0: nat
        ensures !Settled(b, k0)
      {
        Saturates(b, k0);
      }
    }
  }

  /** One update: half a second of offset or more is ignored, and below that an eighth of the offset, less
      the fraction, is taken off the shift, which never exceeds a fifth of a second either way. */
  lemma OneUpdate(shift: int, off: int)
    requires -200_000 <= shift <= 200_000
    ensures off >= 500_000 || off <= -500_000 ==> Next(shift, off) == shift
    ensures 0 <= off < 500_000 ==>
              Next(shift, off) == if shift - off / 8 < -200_000 then -200_000 else shift - off / 8
    ensures -500_000 < off <= 0 ==>
              Next(shift, off) == if shift + (-off) / 8 > 200_000 then 200_000 else shift + (-off) / 8
    ensures Next(0, 300_000) == -37_500 && Next(0, -300_000) == 37_500 && Next(0, -7) == 0
  {
  }
}
