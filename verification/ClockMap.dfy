/** The mapping from monotonic to wall-clock time in the report tool (tools/av_harness/av_report.py),
    over the reals. */
module ClockMap {
  import opened Words

  /** One clock_sync record. */
  datatype Sync = Sync(mono: real, wall: real)

  predicate Increasing(ps: seq<Sync>) {
    forall i, j :: 0 <= i < j < |ps| ==> ps[i].mono < ps[j].mono
  }

  /** The wall clock did not step back between records. */
  predicate WallForward(ps: seq<Sync>) {
    forall i, j :: 0 <= i < j < |ps| ==> ps[i].wall <= ps[j].wall
  }

  function Offset(p: Sync, t: real): real {
    p.wall + (t - p.mono)
  }

  function Interpolated(a: Sync, b: Sync, t: real): real
    requires a.mono < b.mono
  {
    a.wall + (b.wall - a.wall) * (t - a.mono) / (b.mono - a.mono)
  }

  /** The piecewise linear mapping through the records, extended with slope one at both ends. */
  function Wall(ps: seq<Sync>, t: real): real
    requires ps != []
  {
    if |ps| == 1 || t <= ps[0].mono then Offset(ps[0], t)
    else if t < ps[1].mono then Interpolated(ps[0], ps[1], t)
    else Wall(ps[1..], t)
  }

  // ---------------------------------------------------------------------------
  // The code
  // ---------------------------------------------------------------------------

  /** The binary search. It brackets `t` strictly on the right even when the records are unsorted, so
      the two records never have equal times and the code's guard against that is never taken. */
  method Bracket(ps: seq<Sync>, t: real) returns (lo: nat)
    requires |ps| >= 2 && ps[0].mono < t < ps[|ps| - 1].mono
    ensures lo + 1 < |ps| && ps[lo].mono <= t < ps[lo + 1].mono
  {
    lo := 0;
    var hi := |ps| - 1;
    while lo + 1 < hi
      invariant lo < hi < |ps| && ps[lo].mono <= t < ps[hi].mono
    {
      var mid := (lo + hi) / 2;
      if ps[mid].mono <= t { lo := mid; } else { hi := mid; }
    }
  }

  /** `realtime_of`. */
  method RealtimeOf(ps: seq<Sync>, t: real) returns (r: Option<real>)
    ensures r.None? <==> ps == []
    ensures ps != [] && Increasing(ps) ==> r == Some(Wall(ps, t))
  {
    if ps == [] {
      return None;
    }
    if t <= ps[0].mono {
      return Some(Offset(ps[0], t));
    }
    if t >= ps[|ps| - 1].mono {
      if Increasing(ps) { WallAfter(ps, t); }
      return Some(Offset(ps[|ps| - 1], t));
    }
    var lo := Bracket(ps, t);
    if Increasing(ps) { WallBetween(ps, t, lo); }
    r := Some(Interpolated(ps[lo], ps[lo + 1], t));
  }

  lemma {:induction false} WallBetween(ps: seq<Sync>, t: real, k: nat)
    requires Increasing(ps) && k + 1 < |ps| && ps[k].mono <= t < ps[k + 1].mono
    ensures t > ps[0].mono ==> Wall(ps, t) == Interpolated(ps[k], ps[k + 1], t)
    ensures t == ps[k].mono ==> Wall(ps, t) == ps[k].wall
  {
    if t == ps[k].mono { AtStart(ps[k], ps[k + 1]); }
    if k > 0 {
      WallBetween(ps[1..], t, k - 1);
    }
  }

  lemma {:induction false} WallAfter(ps: seq<Sync>, t: real)
    requires Increasing(ps) && ps != [] && t >= ps[|ps| - 1].mono
    ensures Wall(ps, t) == Offset(ps[|ps| - 1], t)
  {
    if |ps| > 1 { WallAfter(ps[1..], t); }
  }

  // ---------------------------------------------------------------------------
  // What the mapping preserves
  // ---------------------------------------------------------------------------

  lemma AtStart(a: Sync, b: Sync)
    requires a.mono < b.mono
    ensures Interpolated(a, b, a.mono) == a.wall
  {
    assert (b.wall - a.wall) * 0.0 == 0.0;
  }

  /** The mapping passes through every record. */
  lemma ExactAtRecords(ps: seq<Sync>, k: nat)
    requires Increasing(ps) && k < |ps|
    ensures Wall(ps, ps[k].mono) == ps[k].wall
  {
    if k + 1 < |ps| {
      WallBetween(ps, ps[k].mono, k);
    } else {
      WallAfter(ps, ps[k].mono);
    }
  }

  lemma Product(d: real, x: real, y: real)
    requires d >= 0.0 && x <= y
    ensures d * x <= d * y
  {
    assert d * (y - x) >= 0.0;
  }

  lemma Ratio(x: real, y: real, w: real)
    requires x <= y && w > 0.0
    ensures x / w <= y / w
  {
  }

  lemma Scaled(d: real, x: real, y: real, w: real)
    requires d >= 0.0 && 0.0 <= x <= y <= w && w > 0.0
    ensures 0.0 <= d * x / w <= d * y / w <= d
  {
    Product(d, 0.0, x);
    Product(d, x, y);
    Product(d, y, w);
    var p, q, whole := d * x, d * y, d * w;
    Ratio(0.0, p, w);
    Ratio(p, q, w);
    Ratio(q, whole, w);
    Undone(d, w);
  }

  lemma Undone(d: real, w: real)
    requires w > 0.0
    ensures d * w / w == d
  {
  }

  lemma Monotone(a: Sync, b: Sync, t: real, u: real)
    requires a.mono < b.mono && a.wall <= b.wall && a.mono <= t <= u <= b.mono
    ensures a.wall <= Interpolated(a, b, t) <= Interpolated(a, b, u) <= b.wall
  {
    Scaled(b.wall - a.wall, t - a.mono, u - a.mono, b.mono - a.mono);
  }

  lemma {:induction false} NotBeforeFirst(ps: seq<Sync>, t: real)
    requires Increasing(ps) && WallForward(ps) && ps != [] && t >= ps[0].mono
    ensures Wall(ps, t) >= ps[0].wall
  {
    if |ps| > 1 && t > ps[0].mono {
      if t < ps[1].mono {
        Monotone(ps[0], ps[1], t, t);
      } else {
        NotBeforeFirst(ps[1..], t);
      }
    }
  }

  lemma {:induction false} OrderKept(ps: seq<Sync>, t: real, u: real)
    requires Increasing(ps) && WallForward(ps) && ps != [] && t <= u
    ensures Wall(ps, t) <= Wall(ps, u)
  {
    if |ps| == 1 || u <= ps[0].mono {
    } else if t <= ps[0].mono {
      NotBeforeFirst(ps, u);
    } else if t >= ps[1].mono {
      OrderKept(ps[1..], t, u);
    } else if u < ps[1].mono {
      Monotone(ps[0], ps[1], t, u);
    } else {
      Monotone(ps[0], ps[1], t, t);
      NotBeforeFirst(ps[1..], u);
    }
  }

  /** Events keep their order on the wall clock, whatever their times, if and only if the wall clock
      never stepped back between two records. */
  lemma OrderKeptIff(ps: seq<Sync>)
    requires Increasing(ps) && ps != []
    ensures (forall t, u :: t <= u ==> Wall(ps, t) <= Wall(ps, u)) <==> WallForward(ps)
  {
    if WallForward(ps) {
      forall t, u | t <= u
        ensures Wall(ps, t) <= Wall(ps, u)
      {
        OrderKept(ps, t, u);
      }
    } else {
      var i, j :| 0 <= i < j < |ps| && ps[i].wall > ps[j].wall;
      ExactAtRecords(ps, i);
      ExactAtRecords(ps, j);
      assert Wall(ps, ps[i].mono) > Wall(ps, ps[j].mono);
    }
  }

  /** Between two records equal steps of monotonic time are equal steps of wall time, and outside them a
      microsecond is a microsecond. */
  lemma EqualSteps(ps: seq<Sync>, t: real, u: real, step: real)
    requires Increasing(ps) && ps != [] && step >= 0.0
    requires exists k: nat :: k + 1 < |ps| && ps[k].mono <= t <= u && u + step < ps[k + 1].mono
    ensures Wall(ps, t + step) - Wall(ps, t) == Wall(ps, u + step) - Wall(ps, u)
  {
    var k: nat :| k + 1 < |ps| && ps[k].mono <= t <= u && u + step < ps[k + 1].mono;
    Between(ps, t, k);
    Between(ps, u, k);
    Between(ps, t + step, k);
    Between(ps, u + step, k);
    SameRise(ps[k], ps[k + 1], t, u, step);
  }

  lemma Between(ps: seq<Sync>, t: real, k: nat)
    requires Increasing(ps) && k + 1 < |ps| && ps[k].mono <= t < ps[k + 1].mono
    ensures Wall(ps, t) == Interpolated(ps[k], ps[k + 1], t)
  {
    WallBetween(ps, t, k);
    if t == ps[k].mono { AtStart(ps[k], ps[k + 1]); }
  }

  lemma SameRise(a: Sync, b: Sync, t: real, u: real, step: real)
    requires a.mono < b.mono
    ensures Interpolated(a, b, t + step) - Interpolated(a, b, t) == Interpolated(a, b, u + step) - Interpolated(a, b, u)
  {
    Rise(a, b, t, step);
    Rise(a, b, u, step);
  }

  lemma Rise(a: Sync, b: Sync, t: real, step: real)
    requires a.mono < b.mono
    ensures Interpolated(a, b, t + step) - Interpolated(a, b, t) == (b.wall - a.wall) * step / (b.mono - a.mono)
  {
    var d, w, x := b.wall - a.wall, b.mono - a.mono, t - a.mono;
    assert d * (x + step) == d * x + d * step;
    var p, q := d * x, d * step;
    assert (p + q) / w == p / w + q / w;
  }

  lemma OutsideRecords(ps: seq<Sync>, t: real, u: real)
    requires Increasing(ps) && ps != []
    requires (t <= ps[0].mono && u <= ps[0].mono) || (t >= ps[|ps| - 1].mono && u >= ps[|ps| - 1].mono)
    ensures Wall(ps, u) - Wall(ps, t) == u - t
  {
    if t >= ps[|ps| - 1].mono && u >= ps[|ps| - 1].mono {
      WallAfter(ps, t);
      WallAfter(ps, u);
    }
  }
}
