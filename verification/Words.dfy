/** Machine words, little-endian byte order and the status codes shared by the modules. */
module Words {
  type Byte = x: int | 0 <= x < 0x100
  type u16 = x: int | 0 <= x < 0x1_0000
  type u32 = x: int | 0 <= x < 0x1_0000_0000
  type u64 = x: int | 0 <= x < 0x1_0000_0000_0000_0000

  const TWO32: nat := 0x1_0000_0000
  const TWO64: nat := 0x1_0000_0000_0000_0000

  /** Success and the negative `vmc_status` values the modelled calls can return. */
  datatype Status = Ok | InvalidArg | NoMem | Proto | Corrupt | Again | Overrun | OutOfSync

  datatype Option<+T> = None | Some(value: T)

  function Wr16(v: u16): (s: seq<Byte>)
    ensures |s| == 2
  {
    [v % 0x100, v / 0x100]
  }

  function Rd16(s: seq<Byte>): (v: u16)
    requires |s| == 2
  {
    var lo: int, hi: int := s[0], s[1];
    lo + 0x100 * hi
  }

  function Wr32(v: u32): (s: seq<Byte>)
    ensures |s| == 4
  {
    Wr16(v % 0x1_0000) + Wr16(v / 0x1_0000)
  }

  function Rd32(s: seq<Byte>): (v: u32)
    requires |s| == 4
  {
    Rd16(s[..2]) + 0x1_0000 * Rd16(s[2..])
  }

  /** Little-endian words survive a round trip in both directions. */
  lemma WordRoundTrip(v: u32, s: seq<Byte>)
    requires |s| == 4
    ensures Rd32(Wr32(v)) == v
    ensures Wr32(Rd32(s)) == s
  {
    assert Wr32(v)[..2] == Wr16(v % 0x1_0000) && Wr32(v)[2..] == Wr16(v / 0x1_0000);
    assert Rd32(s) % 0x1_0000 == Rd16(s[..2]) && Rd32(s) / 0x1_0000 == Rd16(s[2..]);
  }

  /** Parts joined one after the other. */
  function Concat(parts: seq<seq<Byte>>): seq<Byte> {
    if parts == [] then [] else parts[0] + Concat(parts[1..])
  }

  /** `memcpy` into `dst` at offset `at`. */
  method CopyInto(dst: array<Byte>, at: nat, src: seq<Byte>)
    requires at + |src| <= dst.Length
    modifies dst
    ensures dst[..] == old(dst[..])[..at] + src + old(dst[..])[at + |src|..]
  {
    ghost var before := dst[..];
    for i := 0 to |src|
      invariant dst[..] == before[..at] + src[..i] + before[at + i..]
    {
      dst[at + i] := src[i];
    }
  }

  lemma {:induction false} AtLeast(a: nat, c: nat)
    requires a > 0
    ensures a * c >= c
  {
    if a > 1 {
      AtLeast(a - 1, c);
      assert a * c == (a - 1) * c + c;
    }
  }

  // ---------------------------------------------------------------------------
  // Counting
  // ---------------------------------------------------------------------------

  function Below(n: nat): (b: set<nat>)
    ensures forall r: nat :: r in b <==> r < n
    ensures |b| == n
  {
    if n == 0 then {} else Below(n - 1) + {n - 1}
  }

  function Members(s: seq<nat>): set<nat> {
    set x | x in s
  }

  lemma {:induction false} MembersSize(s: seq<nat>)
    requires forall j, k :: 0 <= j < k < |s| ==> s[j] != s[k]
    ensures |Members(s)| == |s|
  {
    if s != [] {
      var n := |s| - 1;
      MembersSize(s[..n]);
      assert s == s[..n] + [s[n]];
      assert Members(s) == Members(s[..n]) + {s[n]};
    }
  }

  /** Distinct numbers below `n` are at most `n` many, and exactly `n` if none is missing. */
  lemma CountBelow(s: seq<nat>, n: nat)
    requires forall j, k :: 0 <= j < k < |s| ==> s[j] != s[k]
    requires forall k :: 0 <= k < |s| ==> s[k] < n
    ensures |s| <= n
    ensures (forall r: nat :: r < n ==> r in s) ==> |s| == n
  {
    MembersSize(s);
    SubsetSize(Members(s), Below(n));
    if forall r: nat :: r < n ==> r in s {
      assert Members(s) == Below(n);
    }
  }

  lemma {:induction false} SubsetSize(a: set<nat>, b: set<nat>)
    requires a <= b
    ensures |a| <= |b|
  {
    if a != {} {
      var x :| x in a;
      SubsetSize(a - {x}, b - {x});
    }
  }
}
