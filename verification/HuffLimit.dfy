// Limiting code lengths to 16 bits (section K.2 of T.81) and giving up the code of all ones.
module HuffLimit {
  import opened Powers
  import opened HuffCode

  const MAX_CLEN := 32

  type UInt8 = x: nat | x < 256

  /** How much of the code space of length-n codes the codes of up to n bits use. */
  function Fill(bits: seq<nat>, n: nat): nat
    requires n < |bits|
  {
    if n == 0 then 0 else 2 * Fill(bits, n - 1) + bits[n]
  }

  /** How many codes have at most n bits. */
  function Total(bits: seq<nat>, n: nat): nat
    requires n < |bits|
  {
    if n == 0 then 0 else Total(bits, n - 1) + bits[n]
  }

  function Bump(bits: seq<nat>, k: nat, d: int): (r: seq<nat>)
    requires k < |bits| && bits[k] + d >= 0
    ensures |r| == |bits|
  {
    bits[k := bits[k] + d]
  }

  lemma {:induction false} FillBump(bits: seq<nat>, k: nat, d: int, n: nat)
    requires 1 <= k < |bits| && n < |bits| && bits[k] + d >= 0
    ensures Fill(Bump(bits, k, d), n) == Fill(bits, n) + (if k <= n then d * Pow2(n - k) else 0)
    ensures Total(Bump(bits, k, d), n) == Total(bits, n) + (if k <= n then d else 0)
  {
    if n > 0 {
      FillBump(bits, k, d, n - 1);
      if k < n {
        MulAssociate(d, 2, Pow2(n - 1 - k));
      } else {
        assert Pow2(0) == 1;
      }
    }
  }

  /** The largest length up to n that has a code, or 0. */
  function Longest(bits: seq<nat>, n: nat): (r: nat)
    requires n < |bits|
    ensures r <= n && (r > 0 ==> bits[r] > 0)
    ensures forall l :: r < l <= n ==> bits[l] == 0
  {
    if n == 0 || bits[n] > 0 then n else Longest(bits, n - 1)
  }

  lemma {:induction false} NothingShorter(bits: seq<nat>, n: nat)
    requires n < |bits| && forall l :: 1 <= l <= n ==> bits[l] == 0
    ensures Fill(bits, n) == 0
  {
    if n > 0 {
      NothingShorter(bits, n - 1);
    }
  }

  lemma {:induction false} TotalBound(bits: seq<nat>, l: nat, n: nat)
    requires 1 <= l <= n < |bits|
    ensures bits[l] <= Total(bits, n)
    ensures forall m :: 1 <= m <= n && m != l ==> bits[l] + bits[m] <= Total(bits, n)
  {
    if n > 1 {
      if l < n {
        TotalBound(bits, l, n - 1);
      } else {
        forall m | 1 <= m < n ensures bits[m] <= Total(bits, n - 1) {
          TotalBound(bits, m, n - 1);
        }
      }
    }
  }

  /** The codes of up to i bits fill the code space exactly, and there are too few to do so with only
      lengths i - 1 and i when i exceeds 16. */
  ghost predicate Full(bits: seq<nat>, i: nat) {
    i < |bits| && Fill(bits, i) == Pow2(i) && Total(bits, i) <= 255
  }

  /** While codes of i bits are left, two at least are, and some code is at least two bits shorter. */
  lemma CanAdjust(bits: seq<nat>, i: nat)
    requires 16 < i && Full(bits, i) && bits[i] > 0
    ensures bits[i] >= 2 && 1 <= Longest(bits, i - 2)
  {
    hide Fill, Total, Pow2, Longest;
    LastTwo(bits, i);
    TotalBound(bits, i, i);
    Pow2Monotone(16, i);
    Pow2Values();
    if Longest(bits, i - 2) == 0 {
      NothingShorter(bits, i - 2);
      assert false;
    }
  }

  lemma LastTwo(bits: seq<nat>, i: nat)
    requires 2 <= i < |bits|
    ensures Fill(bits, i) == 4 * Fill(bits, i - 2) + 2 * bits[i - 1] + bits[i] && Pow2(i) == 2 * Pow2(i - 1)
  {
    assert Fill(bits, i) == 2 * Fill(bits, i - 1) + bits[i];
  }

  /** Take two codes of i bits away; one of them moves up to the prefix they shared, the other shares
      what was the longest code of at most i - 2 bits. */
  function Adjust(bits: seq<nat>, i: nat): (r: seq<nat>)
    requires 16 < i && Full(bits, i) && bits[i] > 0
    ensures |r| == |bits|
  {
    CanAdjust(bits, i);
    var j := Longest(bits, i - 2);
    Bump(Bump(Bump(Bump(bits, i, -2), i - 1, 1), j + 1, 2), j, -1)
  }

  lemma AdjustFill(bits: seq<nat>, i: nat, j: nat)
    requires 1 <= j <= i - 2 && i < |bits| && bits[i] >= 2 && bits[j] >= 1
    ensures var r := Bump(Bump(Bump(Bump(bits, i, -2), i - 1, 1), j + 1, 2), j, -1);
            Fill(r, i) == Fill(bits, i) && Total(r, i) == Total(bits, i)
  {
    hide Fill, Total, Pow2;
    var b1 := Bump(bits, i, -2);
    var b2 := Bump(b1, i - 1, 1);
    var b3 := Bump(b2, j + 1, 2);
    FillBump(bits, i, -2, i);
    FillBump(b1, i - 1, 1, i);
    FillBump(b2, j + 1, 2, i);
    FillBump(b3, j, -1, i);
    Pow2Values();
    Pow2Add(1, i - (j + 1));
  }

  /** An adjustment keeps the code space exactly full and the number of codes. */
  lemma AdjustKeeps(bits: seq<nat>, i: nat)
    requires 16 < i && Full(bits, i) && bits[i] > 0
    ensures Full(Adjust(bits, i), i) && Total(Adjust(bits, i), i) == Total(bits, i)
    ensures Adjust(bits, i)[i] == bits[i] - 2 && Adjust(bits, i)[0] == bits[0]
    ensures forall l :: i < l < |bits| ==> Adjust(bits, i)[l] == bits[l]
  {
    CanAdjust(bits, i);
    AdjustFill(bits, i, Longest(bits, i - 2));
  }

  lemma FullDown(bits: seq<nat>, i: nat)
    requires i > 0 && Full(bits, i) && bits[i] == 0
    ensures Full(bits, i - 1) && Total(bits, i - 1) == Total(bits, i)
  {
  }

  /** The counts with no code longer than 16 bits. */
  function Limit(bits: seq<nat>, i: nat): (r: seq<nat>)
    requires 16 <= i && Full(bits, i)
    ensures |r| == |bits| && Full(r, 16) && Total(r, 16) == Total(bits, i) && r[0] == bits[0]
    ensures forall l :: 16 < l <= i ==> r[l] == 0
    ensures forall l :: i < l < |bits| ==> r[l] == bits[l]
    decreases i, bits[i]
  {
    if i == 16 then bits
    else if bits[i] == 0 then
      FullDown(bits, i);
      Limit(bits, i - 1)
    else
      AdjustKeeps(bits, i);
      Limit(Adjust(bits, i), i)
  }

  // ----- the code of all ones is given up

  lemma {:induction false} FillGrows(bits: seq<nat>, l: nat, n: nat)
    requires l <= n < |bits|
    ensures Fill(bits, n) >= Fill(bits, l) * Pow2(n - l)
    ensures (forall m :: l < m <= n ==> bits[m] == 0) ==> Fill(bits, n) == Fill(bits, l) * Pow2(n - l)
  {
    if l < n {
      FillGrows(bits, l, n - 1);
      MulAssociate(Fill(bits, l), 2, Pow2(n - 1 - l));
    } else {
      assert Pow2(0) == 1;
    }
  }

  lemma CancelPow2(x: nat, l: nat, n: nat)
    requires l <= n
    ensures x * Pow2(n - l) == Pow2(n) ==> x == Pow2(l)
    ensures x * Pow2(n - l) < Pow2(n) ==> x < Pow2(l)
  {
    Pow2Add(l, n - l);
    CompareQuotient(x, 0, Pow2(n - l), Pow2(l));
    CompareQuotient(Pow2(l), 0, Pow2(n - l), x);
  }

  /** The canonical code of the shorter lengths is what Fill counts. */
  lemma {:induction false} FirstIsFill(bits: seq<nat>, l: nat)
    requires |bits| == MAX_CLEN + 1 && l <= 16
    ensures Start(bits[..17], l + 1) == Total(bits, l)
    ensures l > 0 ==> First(bits[..17], l) + bits[l] == Fill(bits, l)
  {
    if l > 0 {
      FirstIsFill(bits, l - 1);
    }
  }

  /** Without its last code a full set of lengths is legal. */
  lemma WithoutLast(bits: seq<nat>)
    requires |bits| == MAX_CLEN + 1 && Full(bits, 16)
    ensures Longest(bits, 16) > 0
    ensures var r := Bump(bits, Longest(bits, 16), -1);
            Legal(r[..17]) && Start(r[..17], 17) == Total(bits, 16) - 1
  {
    hide Fill, Total, First, Start;
    if Longest(bits, 16) == 0 {
      NothingShorter(bits, 16);
      assert false;
    }
    var top := Longest(bits, 16);
    var r := Bump(bits, top, -1);
    FirstIsFill(r, 16);
    FillBump(bits, top, -1, 16);
    forall l: nat | 1 <= l <= 16
      ensures First(r[..17], l) + r[..17][l] < Pow2(l)
    {
      WithoutLastAt(bits, r, top, l);
    }
  }

  /** At every length some code is left over. */
  lemma WithoutLastAt(bits: seq<nat>, r: seq<nat>, top: nat, l: nat)
    requires |bits| == MAX_CLEN + 1 && Full(bits, 16) && top == Longest(bits, 16) > 0 && r == Bump(bits, top, -1)
    requires 1 <= l <= 16
    ensures First(r[..17], l) + r[..17][l] < Pow2(l)
  {
    hide Fill, Total, First, Start, Bump, Longest;
    FirstIsFill(r, l);
    FillBump(bits, top, -1, l);
    if l >= top {
      FillGrows(bits, l, 16);
      CancelPow2(Fill(bits, l), l, 16);
    } else {
      FillBump(bits, top, -1, 16);
      FillGrows(r, l, 16);
      CancelPow2(Fill(r, l), l, 16);
    }
  }

  // ----- the loops

  method LimitLengths(bits: array<UInt8>)
    requires bits.Length == MAX_CLEN + 1 && Full(bits[..], MAX_CLEN) && bits[0] == 0
    modifies bits
    ensures bits[..] == Limit(old(bits[..]), MAX_CLEN)
  {
    hide Full, Total, Fill, Adjust, Limit;
    var i := MAX_CLEN;
    while i > 16
      invariant 16 <= i <= MAX_CLEN && bits[0] == 0 && Full(bits[..], i) && Full(old(bits[..]), MAX_CLEN)
      invariant Limit(bits[..], i) == Limit(old(bits[..]), MAX_CLEN)
    {
      while bits[i] > 0
        invariant bits[0] == 0 && Full(bits[..], i)
        invariant Limit(bits[..], i) == Limit(old(bits[..]), MAX_CLEN)
        decreases bits[i]
      {
        ghost var was := bits[..];
        CanAdjust(was, i);
        var j := i - 2;
        while bits[j] == 0
          invariant 1 <= j <= i - 2 && Longest(was, j) == Longest(was, i - 2)
          decreases j
        {
          j := j - 1;
        }
        AdjustInPlace(bits, i, j);
        AdjustKeeps(was, i);
        LimitStep(was, i);
      }
      LimitStep(bits[..], i);
      i := i - 1;
    }
    LimitDone(bits[..]);
  }

  lemma LimitStep(bits: seq<nat>, i: nat)
    requires 16 < i && Full(bits, i)
    ensures bits[i] == 0 ==> Full(bits, i - 1) && Limit(bits, i) == Limit(bits, i - 1)
    ensures bits[i] > 0 ==> Full(Adjust(bits, i), i) && Limit(bits, i) == Limit(Adjust(bits, i), i)
  {
    if bits[i] > 0 {
      AdjustKeeps(bits, i);
    } else {
      FullDown(bits, i);
    }
  }

  lemma LimitDone(bits: seq<nat>)
    requires Full(bits, 16)
    ensures Limit(bits, 16) == bits
  {
  }

  /** One count never exceeds what is left of the total. */
  lemma CountsFit(bits: seq<nat>, i: nat, j: nat)
    requires 16 < i && Full(bits, i) && bits[i] > 0 && j == Longest(bits, i - 2)
    ensures 1 <= j && bits[i] >= 2 && bits[j] >= 1
    ensures bits[i - 1] <= 253 && (j + 1 == i - 1 ==> bits[i - 1] <= 252) && bits[j + 1] <= 253
  {
    CanAdjust(bits, i);
    TotalBound(bits, i, i);
    if j + 1 == i - 1 {
      ThreeFit(bits, i, j);
    }
  }

  lemma ThreeFit(bits: seq<nat>, i: nat, j: nat)
    requires 1 <= j == i - 2 && i < |bits|
    ensures bits[i] + bits[i - 1] + bits[j] <= Total(bits, i)
  {
    TotalBound(bits, j, j);
    assert Total(bits, i) == Total(bits, j) + bits[i - 1] + bits[i];
  }

  method AdjustInPlace(bits: array<UInt8>, i: nat, j: nat)
    requires bits.Length == MAX_CLEN + 1 && 16 < i <= MAX_CLEN && Full(bits[..], i) && bits[i] > 0
    requires j == Longest(bits[..], i - 2)
    modifies bits
    ensures bits[..] == Adjust(old(bits[..]), i)
  {
    hide Full;
    CountsFit(bits[..], i, j);
    bits[i] := bits[i] - 2;
    bits[i - 1] := bits[i - 1] + 1;
    bits[j + 1] := bits[j + 1] + 2;
    bits[j] := bits[j] - 1;
  }

  /** Give up one code of the longest length: the pseudo-symbol's. */
  method DropLast(bits: array<UInt8>)
    requires bits.Length == MAX_CLEN + 1 && Full(bits[..], 16)
    modifies bits
    ensures Longest(old(bits[..]), 16) > 0
    ensures bits[..] == Bump(old(bits[..]), Longest(old(bits[..]), 16), -1)
  {
    WithoutLast(bits[..]);
    var i := 16;
    while bits[i] == 0
      invariant 1 <= i <= 16 && Longest(bits[..], i) == Longest(bits[..], 16)
      decreases i
    {
      i := i - 1;
    }
    bits[i] := bits[i] - 1;
  }
}
