// Binarisation of coefficients (sections F.1.4 and F.2.4 of T.81): the decisions that code a block,
// and the statistics bins they use. Every function takes the decisions that follow as its last
// argument, so that a trace can be consumed one decision at a time.
module ArithBlock {
  import opened Powers
  import opened Coefs
  import opened ArithTable
  import opened ArithInterval

  /** The decisions still to come. */
  datatype Trace = Done | Then(bin: nat, bit: bool, rest: Trace)

  /** The decisions of hist followed by those of t. */
  ghost function Plan(hist: seq<Decision>, t: Trace): seq<Decision>
    decreases t
  {
    match t
    case Done => hist
    case Then(bin, bit, rest) => Plan(hist + [Decision(bin, bit)], rest)
  }

  ghost function Flat(t: Trace): seq<Decision> {
    match t
    case Done => []
    case Then(bin, bit, rest) => [Decision(bin, bit)] + Flat(rest)
  }

  lemma {:induction false} PlanIsFlat(hist: seq<Decision>, t: Trace)
    ensures Plan(hist, t) == hist + Flat(t)
    decreases t
  {
    match t
    case Done =>
    case Then(bin, bit, rest) =>
      PlanIsFlat(hist + [Decision(bin, bit)], rest);
      assert hist + [Decision(bin, bit)] + Flat(rest) == hist + ([Decision(bin, bit)] + Flat(rest));
  }

  const NUM_ARITH_TBLS := 16
  const DC_STAT_BINS := 64
  const AC_STAT_BINS := 256

  // All statistics areas laid out in one array: DC tables, AC tables, and the fixed bin.
  function DcBin(tbl: nat): nat { DC_STAT_BINS * tbl }
  function AcBin(tbl: nat): nat { DC_STAT_BINS * NUM_ARITH_TBLS + AC_STAT_BINS * tbl }

  const FIXED_BIN := (DC_STAT_BINS + AC_STAT_BINS) * NUM_ARITH_TBLS
  const ALL_BINS := FIXED_BIN + 1

  /** Figure F.9: the bits of v below its leading bit, from m / 2 down. */
  function Bits(st: nat, v: nat, m: nat, next: Trace): Trace {
    if m / 2 == 0 then next
    else Then(st, v / (m / 2) % 2 == 1, Bits(st, v, m / 2, next))
  }

  /** Figure F.8: the magnitude category of v from bin st on, where v2 is what is left to shift out,
      followed by the bits of v. */
  function Category(st: nat, v: nat, v2: nat, m: nat, next: Trace): Trace
    decreases v2
  {
    if v2 / 2 == 0 then Then(st, false, Bits(st + 14, v, m, next))
    else Then(st, true, Category(st + 1, v, v2 / 2, 2 * m, next))
  }

  /** The DC magnitude |diff| - 1 = v with first bin st. */
  function DcMagnitude(tbl: nat, st: nat, v: nat, next: Trace): Trace {
    if v == 0 then Then(st, false, next)
    else Then(st, true, Category(DcBin(tbl) + 20, v, v, 1, next))
  }

  /** Figure F.4: a DC difference in conditioning context ctx. */
  function DcTrace(tbl: nat, ctx: nat, diff: int, next: Trace): Trace {
    var s0 := DcBin(tbl) + ctx;
    if diff == 0 then Then(s0, false, next)
    else
      Then(s0, true, Then(s0 + 1, diff < 0,
           DcMagnitude(tbl, if diff < 0 then s0 + 3 else s0 + 2, Abs(diff) - 1, next)))
  }

  /** The leading bit of v. */
  function Leading(v: nat): nat {
    if v == 0 then 0 else if v / 2 == 0 then 1 else 2 * Leading(v / 2)
  }

  predicate IsPow2(m: nat) {
    m == 1 || (m > 1 && m % 2 == 0 && IsPow2(m / 2))
  }

  /** Section F.1.4.4.1.2: the conditioning category a difference leaves behind. */
  function NextContext(diff: int, l: nat, u: nat): nat {
    if diff == 0 then 0
    else
      var m := Leading(Abs(diff) - 1);
      if m < Pow2(l) / 2 then 0
      else if m > Pow2(u) / 2 then (if diff < 0 then 16 else 12)
      else (if diff < 0 then 8 else 4)
  }

  /** The AC magnitude |coef| - 1 = v: bin st twice, then the region for index k. */
  function AcMagnitude(st: nat, region: nat, v: nat, next: Trace): Trace {
    if v == 0 then Then(st, false, next)
    else if v / 2 == 0 then Then(st, true, Then(st, false, next))
    else Then(st, true, Then(st, true, Category(region, v, v / 2, 2, next)))
  }

  function Region(tbl: nat, k: nat, kx: nat): nat {
    AcBin(tbl) + (if k <= kx then 189 else 217)
  }

  /** A nonzero coefficient at zigzag index k, after its zero run. */
  function CoefTrace(tbl: nat, k: nat, kx: nat, v: int, next: Trace): Trace
    requires v != 0 && k > 0
  {
    Then(FIXED_BIN, v < 0,
         AcMagnitude(AcBin(tbl) + 3 * (k - 1) + 2, Region(tbl, k, kx), Abs(v) - 1, next))
  }

  /** Is every coefficient from index k on zero? */
  predicate ZeroFrom(zz: seq<int>, k: nat) {
    forall i :: k <= i < |zz| ==> zz[i] == 0
  }

  /** The zero run and coefficient that follow index k, then the rest of the block. */
  function RunTrace(tbl: nat, kx: nat, zz: seq<int>, k: nat, next: Trace): Trace
    requires k < |zz| && !ZeroFrom(zz, k + 1)
    decreases |zz| - k, 0
  {
    var st := AcBin(tbl) + 3 * k + 1;
    if zz[k + 1] == 0 then Then(st, false, RunTrace(tbl, kx, zz, k + 1, next))
    else Then(st, true, CoefTrace(tbl, k + 1, kx, zz[k + 1], AcTrace(tbl, kx, zz, k + 1, next)))
  }

  /** Figure F.5: the AC coefficients after index k of the block zz in zigzag order. */
  function AcTrace(tbl: nat, kx: nat, zz: seq<int>, k: nat, next: Trace): Trace
    requires k < |zz|
    decreases |zz| - k, 1
  {
    var st := AcBin(tbl) + 3 * k;
    if k == |zz| - 1 then next
    else if ZeroFrom(zz, k + 1) then Then(st, true, next)
    else Then(st, false, RunTrace(tbl, kx, zz, k, next))
  }

  // ----- a trace is its own decisions followed by what comes next

  function Append(t: Trace, next: Trace): Trace {
    match t
    case Done => next
    case Then(bin, bit, rest) => Then(bin, bit, Append(rest, next))
  }

  lemma {:induction false} PlanAppend(hist: seq<Decision>, t: Trace, next: Trace)
    ensures Plan(hist, Append(t, next)) == Plan(Plan(hist, t), next)
    decreases t
  {
    match t
    case Done =>
    case Then(bin, bit, rest) => PlanAppend(hist + [Decision(bin, bit)], rest, next);
  }

  lemma {:induction false} BitsAppend(st: nat, v: nat, m: nat, t: Trace, next: Trace)
    ensures Bits(st, v, m, Append(t, next)) == Append(Bits(st, v, m, t), next)
    decreases m
  {
    if m / 2 != 0 {
      BitsAppend(st, v, m / 2, t, next);
    }
  }

  lemma {:induction false} CategoryAppend(st: nat, v: nat, v2: nat, m: nat, t: Trace, next: Trace)
    ensures Category(st, v, v2, m, Append(t, next)) == Append(Category(st, v, v2, m, t), next)
    decreases v2
  {
    if v2 / 2 != 0 {
      CategoryAppend(st + 1, v, v2 / 2, 2 * m, t, next);
    } else {
      BitsAppend(st + 14, v, m, t, next);
    }
  }

  lemma DcAppend(tbl: nat, ctx: nat, diff: int, t: Trace, next: Trace)
    ensures DcTrace(tbl, ctx, diff, Append(t, next)) == Append(DcTrace(tbl, ctx, diff, t), next)
  {
    if diff != 0 {
      var v := Abs(diff) - 1;
      var s0 := DcBin(tbl) + ctx;
      var st := if diff < 0 then s0 + 3 else s0 + 2;
      CategoryAppend(DcBin(tbl) + 20, v, v, 1, t, next);
      var u := DcMagnitude(tbl, st, v, t);
      assert DcMagnitude(tbl, st, v, Append(t, next)) == Append(u, next);
      assert Append(Then(s0 + 1, diff < 0, u), next) == Then(s0 + 1, diff < 0, Append(u, next));
    }
  }

  lemma CoefAppend(tbl: nat, k: nat, kx: nat, v: int, t: Trace, next: Trace)
    requires v != 0 && k > 0
    ensures CoefTrace(tbl, k, kx, v, Append(t, next)) == Append(CoefTrace(tbl, k, kx, v, t), next)
  {
    var w, st, region := Abs(v) - 1, AcBin(tbl) + 3 * (k - 1) + 2, Region(tbl, k, kx);
    CategoryAppend(region, w, w / 2, 2, t, next);
    var u := Category(region, w, w / 2, 2, t);
    assert Append(Then(st, true, u), next) == Then(st, true, Append(u, next));
    assert Append(Then(st, false, t), next) == Then(st, false, Append(t, next));
    assert AcMagnitude(st, region, w, Append(t, next)) == Append(AcMagnitude(st, region, w, t), next);
  }

  lemma {:induction false} RunAppend(tbl: nat, kx: nat, zz: seq<int>, k: nat, t: Trace, next: Trace)
    requires k < |zz| && !ZeroFrom(zz, k + 1)
    ensures RunTrace(tbl, kx, zz, k, Append(t, next)) == Append(RunTrace(tbl, kx, zz, k, t), next)
    decreases |zz| - k, 0
  {
    if zz[k + 1] == 0 {
      RunAppend(tbl, kx, zz, k + 1, t, next);
    } else {
      AcAppend(tbl, kx, zz, k + 1, t, next);
      CoefAppend(tbl, k + 1, kx, zz[k + 1], AcTrace(tbl, kx, zz, k + 1, t), next);
    }
  }

  lemma {:induction false} AcAppend(tbl: nat, kx: nat, zz: seq<int>, k: nat, t: Trace, next: Trace)
    requires k < |zz|
    ensures AcTrace(tbl, kx, zz, k, Append(t, next)) == Append(AcTrace(tbl, kx, zz, k, t), next)
    decreases |zz| - k, 1
  {
    if k != |zz| - 1 && !ZeroFrom(zz, k + 1) {
      RunAppend(tbl, kx, zz, k, t, next);
    }
  }

  // ----- which bins a trace uses

  /** Every decision of t is in the fixed bin or in bins base .. base + n - 1. */
  ghost predicate InBins(t: Trace, base: nat, n: nat) {
    match t
    case Done => true
    case Then(bin, _, rest) => (bin == FIXED_BIN || base <= bin < base + n) && InBins(rest, base, n)
  }

  lemma {:induction false} BitsBins(st: nat, v: nat, m: nat, base: nat, n: nat)
    requires base <= st < base + n
    ensures InBins(Bits(st, v, m, Done), base, n)
    decreases m
  {
    if m / 2 != 0 {
      BitsBins(st, v, m / 2, base, n);
    }
  }

  lemma {:induction false} CategoryBins(st: nat, v: nat, v2: nat, m: nat, j: nat, base: nat, n: nat)
    requires v2 < Pow2(j + 1) && base <= st && st + j + 14 < base + n
    ensures InBins(Category(st, v, v2, m, Done), base, n)
    decreases v2
  {
    if v2 / 2 == 0 {
      BitsBins(st + 14, v, m, base, n);
    } else {
      CategoryBins(st + 1, v, v2 / 2, 2 * m, j - 1, base, n);
    }
  }

  /** A DC difference of magnitude up to 2^15 stays within 49 bins of its table. */
  lemma DcBins(tbl: nat, ctx: nat, diff: int)
    requires ctx <= 16 && Abs(diff) <= 0x8000
    ensures InBins(DcTrace(tbl, ctx, diff, Done), DcBin(tbl), 49)
  {
    Pow2Values();
    if diff != 0 {
      var v, s0 := Abs(diff) - 1, DcBin(tbl) + ctx;
      CategoryBins(DcBin(tbl) + 20, v, v, 1, 14, DcBin(tbl), 49);
      var u := DcMagnitude(tbl, if diff < 0 then s0 + 3 else s0 + 2, v, Done);
      assert InBins(u, DcBin(tbl), 49);
      assert InBins(Then(s0 + 1, diff < 0, u), DcBin(tbl), 49);
    }
  }

  /** An AC coefficient uses the low region (up to index Kx) or the high region of its table, never
      bins of both, and stays within 245 bins. */
  lemma CoefBins(tbl: nat, k: nat, kx: nat, v: JCOEF)
    requires v != 0 && 0 < k < 64
    ensures InBins(CoefTrace(tbl, k, kx, v, Done), AcBin(tbl), 245)
    ensures var w := Abs(v) - 1;
            w / 2 != 0 ==> InBins(Category(Region(tbl, k, kx), w, w / 2, 2, Done),
                                  AcBin(tbl) + (if k <= kx then 189 else 217), 28)
  {
    Pow2Values();
    var w, st, region := Abs(v) - 1, AcBin(tbl) + 3 * (k - 1) + 2, Region(tbl, k, kx);
    if w / 2 != 0 {
      CategoryBins(region, w, w / 2, 2, 13, AcBin(tbl), 245);
      CategoryBins(region, w, w / 2, 2, 13, AcBin(tbl) + (if k <= kx then 189 else 217), 28);
      assert InBins(Then(st, true, Category(region, w, w / 2, 2, Done)), AcBin(tbl), 245);
    } else {
      assert InBins(Then(st, false, Done), AcBin(tbl), 245);
    }
    assert InBins(AcMagnitude(st, region, w, Done), AcBin(tbl), 245);
  }

  lemma {:induction false} InBinsAppend(t: Trace, u: Trace, base: nat, n: nat)
    requires InBins(t, base, n) && InBins(u, base, n)
    ensures InBins(Append(t, u), base, n)
  {
    match t
    case Done =>
    case Then(_, _, rest) => InBinsAppend(rest, u, base, n);
  }

  /** All AC decisions of a block stay within 245 bins of its table and the fixed bin. */
  lemma {:induction false} AcBins(tbl: nat, kx: nat, zz: seq<JCOEF>, k: nat)
    requires k < |zz| <= 64
    ensures InBins(AcTrace(tbl, kx, zz, k, Done), AcBin(tbl), 245)
    decreases |zz| - k, 1
  {
    if k != |zz| - 1 && !ZeroFrom(zz, k + 1) {
      RunBins(tbl, kx, zz, k);
    }
  }

  lemma {:induction false} RunBins(tbl: nat, kx: nat, zz: seq<JCOEF>, k: nat)
    requires k < |zz| <= 64 && !ZeroFrom(zz, k + 1)
    ensures InBins(RunTrace(tbl, kx, zz, k, Done), AcBin(tbl), 245)
    decreases |zz| - k, 0
  {
    if zz[k + 1] == 0 {
      RunBins(tbl, kx, zz, k + 1);
    } else {
      var tail := AcTrace(tbl, kx, zz, k + 1, Done);
      AcBins(tbl, kx, zz, k + 1);
      CoefBins(tbl, k + 1, kx, zz[k + 1]);
      CoefAppend(tbl, k + 1, kx, zz[k + 1], Done, tail);
      InBinsAppend(CoefTrace(tbl, k + 1, kx, zz[k + 1], Done), tail, AcBin(tbl), 245);
    }
  }
}
