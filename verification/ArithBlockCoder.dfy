// Coding one block's coefficients through the arithmetic encoder and decoder objects.
module ArithBlockCoder {
  import opened Powers
  import opened Coefs
  import opened Segments
  import opened Digits
  import opened ArithTable
  import opened ArithInterval
  import opened ArithBlock
  import opened ArithEncoder
  import opened ArithDecoder

  // ----- encoding

  ghost predicate Ready(e: ArithEncoder)
    reads e, e.stats
  {
    e.Valid() && e.stats.Length == ALL_BINS
  }

  method Put(e: ArithEncoder, bin: nat, bit: bool, ghost next: Trace)
    requires Ready(e) && bin < ALL_BINS
    modifies e, e.stats
    ensures Ready(e) && e.before == old(e.before) && e.start == old(e.start)
    ensures Plan(e.hist, next) == old(Plan(e.hist, Then(bin, bit, next)))
  {
    e.ArithEncode(bin, bit);
  }

  method PutBits(e: ArithEncoder, st: nat, v: nat, m0: nat, ghost next: Trace)
    requires Ready(e) && st < ALL_BINS
    modifies e, e.stats
    ensures Ready(e) && e.before == old(e.before) && e.start == old(e.start)
    ensures Plan(e.hist, next) == old(Plan(e.hist, Bits(st, v, m0, next)))
  {
    hide Ready, Plan;
    var m := m0;
    while m / 2 != 0
      invariant Ready(e) && e.before == old(e.before) && e.start == old(e.start)
      invariant Plan(e.hist, Bits(st, v, m, next)) == old(Plan(e.hist, Bits(st, v, m0, next)))
    {
      m := m / 2;
      Put(e, st, v / m % 2 == 1, Bits(st, v, m, next));
    }
  }

  /** m times the leading bit of what is left stays fixed while m doubles and v2 halves. */
  lemma LeadingShift(m: nat, v2: nat)
    requires v2 / 2 != 0
    ensures m * Leading(v2) == 2 * m * Leading(v2 / 2)
  {
    MulAssociate(m, 2, Leading(v2 / 2));
    MulAssociateLeft(2, m, Leading(v2 / 2));
  }

  /** Figures F.8 and F.9 from the first bin of a magnitude region, when v0 is what is left of v to
      shift out; m becomes the leading bit of v. */
  method PutCategory(e: ArithEncoder, st0: nat, v: nat, v0: nat, m0: nat, ghost next: Trace) returns (m: nat)
    requires Ready(e) && 0 < v0 < 0x1_0000 && st0 + 30 < ALL_BINS
    modifies e, e.stats
    ensures Ready(e) && e.before == old(e.before) && e.start == old(e.start)
    ensures Plan(e.hist, next) == old(Plan(e.hist, Category(st0, v, v0, m0, next)))
    ensures m == m0 * Leading(v0)
  {
    hide Ready, Plan, Bits;
    m := m0;
    var v2, st := v0, st0;
    Pow2Values();
    ghost var top := m0 * Leading(v0);
    while v2 / 2 != 0
      invariant Ready(e) && e.before == old(e.before) && e.start == old(e.start)
      invariant st0 <= st < st0 + 16 && 0 < v2 < Pow2(16 - (st - st0))
      invariant Plan(e.hist, Category(st, v, v2, m, next)) == old(Plan(e.hist, Category(st0, v, v0, m0, next)))
      invariant m * Leading(v2) == top
    {
      LeadingShift(m, v2);
      v2 := v2 / 2;
      Put(e, st, true, Category(st + 1, v, v2, 2 * m, next));
      m := m * 2;
      st := st + 1;
    }
    Put(e, st, false, Bits(st + 14, v, m, next));
    PutBits(e, st + 14, v, m, next);
  }

  /** Figures F.4 and F.6: the DC difference v0 in context ctx; returns the next context. */
  method PutDc(e: ArithEncoder, tbl: nat, ctx: nat, v0: int, l: nat, u: nat, ghost next: Trace)
    returns (ctx': nat)
    requires Ready(e) && tbl < NUM_ARITH_TBLS && ctx <= 16 && -0x1_0000 < v0 < 0x1_0000
    modifies e, e.stats
    ensures Ready(e) && e.before == old(e.before) && e.start == old(e.start)
    ensures Plan(e.hist, next) == old(Plan(e.hist, DcTrace(tbl, ctx, v0, next)))
    ensures ctx' == NextContext(v0, l, u)
  {
    hide Ready, Plan;
    var v, st := v0, DcBin(tbl) + ctx;
    if v == 0 {
      Put(e, st, false, next);
      return 0;
    }
    ghost var tail := DcMagnitude(tbl, if v0 < 0 then st + 3 else st + 2, Abs(v0) - 1, next);
    Put(e, st, true, Then(st + 1, v0 < 0, tail));
    Put(e, st + 1, v0 < 0, tail);
    if v > 0 {
      st := st + 2;
      ctx' := 4;
    } else {
      v := -v;
      st := st + 3;
      ctx' := 8;
    }
    var m := 0;
    v := v - 1;
    if v != 0 {
      Put(e, st, true, Category(DcBin(tbl) + 20, v, v, 1, next));
      m := PutCategory(e, DcBin(tbl) + 20, v, v, 1, next);
    } else {
      Put(e, st, false, next);
    }
    if m < Pow2(l) / 2 {
      ctx' := 0;
    } else if m > Pow2(u) / 2 {
      ctx' := ctx' + 8;
    }
  }

  /** Figure F.6: a nonzero AC coefficient at index k, after its zero run. */
  method PutCoef(e: ArithEncoder, tbl: nat, k: nat, kx: nat, v0: JCOEF, ghost next: Trace)
    requires Ready(e) && tbl < NUM_ARITH_TBLS && 0 < k < 64 && v0 != 0
    modifies e, e.stats
    ensures Ready(e) && e.before == old(e.before) && e.start == old(e.start)
    ensures Plan(e.hist, next) == old(Plan(e.hist, CoefTrace(tbl, k, kx, v0, next)))
  {
    hide Ready, Plan;
    var v, st := Abs(v0), AcBin(tbl) + 3 * (k - 1) + 2;
    Put(e, FIXED_BIN, v0 < 0, AcMagnitude(st, Region(tbl, k, kx), v - 1, next));
    v := v - 1;
    if v == 0 {
      Put(e, st, false, next);
    } else if v / 2 == 0 {
      Put(e, st, true, Then(st, false, next));
      Put(e, st, false, next);
    } else {
      ghost var tail := Category(Region(tbl, k, kx), v, v / 2, 2, next);
      Put(e, st, true, Then(st, true, tail));
      Put(e, st, true, tail);
      var m := PutCategory(e, Region(tbl, k, kx), v, v / 2, 2, next);
    }
  }

  /** The index of the last nonzero coefficient, or 0 if there is none after index 0. */
  method EndOfBlock(zz: seq<JCOEF>) returns (ke: nat)
    requires |zz| > 1
    ensures ke < |zz| && ZeroFrom(zz, ke + 1) && (ke > 0 ==> zz[ke] != 0)
  {
    ke := |zz| - 1;
    while zz[ke] == 0 && ke > 0
      invariant ke < |zz| && ZeroFrom(zz, ke + 1)
    {
      ke := ke - 1;
    }
  }

  /** Figure F.5: the AC coefficients of a block given in zigzag order. */
  method PutAc(e: ArithEncoder, tbl: nat, kx: nat, zz: seq<JCOEF>, ghost next: Trace)
    requires Ready(e) && tbl < NUM_ARITH_TBLS && 1 < |zz| <= 64
    modifies e, e.stats
    ensures Ready(e) && e.before == old(e.before) && e.start == old(e.start)
    ensures Plan(e.hist, next) == old(Plan(e.hist, AcTrace(tbl, kx, zz, 0, next)))
  {
    hide Ready, Plan;
    ghost var goal := Plan(e.hist, AcTrace(tbl, kx, zz, 0, next));
    var ke := EndOfBlock(zz);
    var k := 0;
    while k < ke
      invariant Ready(e) && e.before == old(e.before) && e.start == old(e.start)
      invariant k <= ke && Plan(e.hist, AcTrace(tbl, kx, zz, k, next)) == goal
    {
      assert !ZeroFrom(zz, k + 1);
      Put(e, AcBin(tbl) + 3 * k, false, RunTrace(tbl, kx, zz, k, next));
      while zz[k + 1] == 0
        invariant Ready(e) && e.before == old(e.before) && e.start == old(e.start)
        invariant k < ke && !ZeroFrom(zz, k + 1) && Plan(e.hist, RunTrace(tbl, kx, zz, k, next)) == goal
        decreases ke - k
      {
        assert !ZeroFrom(zz, k + 2);
        Put(e, AcBin(tbl) + 3 * k + 1, false, RunTrace(tbl, kx, zz, k + 1, next));
        k := k + 1;
      }
      ghost var rest := AcTrace(tbl, kx, zz, k + 1, next);
      Put(e, AcBin(tbl) + 3 * k + 1, true, CoefTrace(tbl, k + 1, kx, zz[k + 1], rest));
      k := k + 1;
      PutCoef(e, tbl, k, kx, zz[k], rest);
    }
    if k < |zz| - 1 {
      Put(e, AcBin(tbl) + 3 * k, true, next);
    }
  }

  // ----- decoding

  datatype Status = Good | OutOfData | BadCode

  ghost predicate Alive(d: ArithDecoder)
    reads d, d.stats
  {
    d.Valid() && d.stats.Length == ALL_BINS
  }

  /** The statistics are those that the decisions so far leave. */
  ghost predicate Consistent(d: ArithDecoder)
    reads d, d.stats
  {
    && d.pos <= |d.src| && |d.start| == d.stats.Length == ALL_BINS && InRange(d.start, d.hist)
    && d.stats[..] == Run(d.table, d.start, d.hist).stats
  }

  /** The decoder has found a corrupt code in segment s, and decodes no more of it. */
  ghost predicate GaveUp(d: ArithDecoder, s: Segment)
    reads d, d.stats
  {
    d.ct == -1 && d.Feeds(s) && Consistent(d)
  }

  /** The segment s codes the decisions t next. */
  ghost predicate Follows(d: ArithDecoder, s: Segment, t: Trace)
    reads d
  {
    d.Expects(s, Flat(t))
  }

  method Get(d: ArithDecoder, bin: nat, ghost s: Segment, ghost t: Trace) returns (ok: bool, bit: bool)
    requires Alive(d) && bin < ALL_BINS
    modifies d, d.stats
    ensures d.start == old(d.start)
    ensures ok ==> Alive(d)
    ensures old(Follows(d, s, t)) && t.Then? && t.bin == bin ==> ok && bit == t.bit && Follows(d, s, t.rest)
  {
    ok, bit := d.ArithDecode(bin, s, Flat(t));
  }

  /** What is known of v once its bits from m up have been read. */
  ghost predicate Above(v: nat, m: nat, r: nat) {
    m > 0 && r == v - v % m
  }

  lemma HalfStep(v: nat, h: nat, q: nat, b: nat, rest: nat)
    requires v == (2 * q + b) * h + rest && rest < h && b <= 1
    ensures v % (2 * h) == b * h + rest
  {
    MulAdd(2 * q, b, h);
    MulAssociateLeft(2, q, h);
    MulAssociate(2, q, h);
    DivModUnique(v, 2 * h, q, b * h + rest);
  }

  lemma NextBit(v: nat, m: nat, r: nat)
    requires m > 1 && m % 2 == 0 && Above(v, m, r)
    ensures Above(v, m / 2, if v / (m / 2) % 2 == 1 then r + m / 2 else r)
  {
    var h := m / 2;
    var x, rest := v / h, v % h;
    HalfStep(v, h, x / 2, x % 2, rest);
  }

  /** m is m0 doubled j times, still below the error threshold. */
  ghost predicate Doubled(m0: nat, m: nat, j: nat) {
    m0 > 0 && m == m0 * Pow2(j) && IsPow2(m) && m < 0x8000
  }

  lemma ShiftBound(j: nat)
    requires Pow2(j) < 0x8000
    ensures j < 15
  {
    Pow2Values();
    if j >= 15 {
      Pow2Monotone(15, j);
    }
  }

  lemma DoubledBound(m0: nat, m: nat, j: nat)
    requires Doubled(m0, m, j)
    ensures 0 < 2 * m <= 0x8000 && j < 15
  {
    PowerGap(0x8000, m);
    MulMonotone(1, m0, Pow2(j));
    ShiftBound(j);
  }

  lemma DoubledIsPow2(m0: nat, m: nat, j: nat)
    requires Doubled(m0, m, j)
    ensures IsPow2(m)
  {
  }

  lemma DoubledStep(m0: nat, m: nat, j: nat)
    requires Doubled(m0, m, j) && 2 * m != 0x8000
    ensures Doubled(m0, 2 * m, j + 1)
  {
    MulAssociate(m0, 2, Pow2(j));
    DoubledBound(m0, m, j);
  }

  lemma {:induction false} PowerGap(m: nat, n: nat)
    requires IsPow2(m) && IsPow2(n) && m > n
    ensures m >= 2 * n
  {
    if n > 1 {
      PowerGap(m / 2, n / 2);
    }
  }

  /** v2 is v shifted right by the bits counted in m, and m times the leading bit of v2 stays fixed. */
  ghost predicate Shifting(v: nat, m0: nat, v0: nat, m: nat, v2: nat) {
    && 0 < v2 && m * v2 <= v < m * v2 + m
    && m * Leading(v2) == m0 * Leading(v0)
  }

  lemma HalveBounds(v: nat, m: nat, h: nat, b: nat)
    requires b <= 1 && m * (2 * h + b) <= v < m * (2 * h + b) + m
    ensures 2 * m * h <= v < 2 * m * h + 2 * m
  {
    MulAdd(2 * h, b, m);
    MulAssociateLeft(2, h, m);
    MulAssociateLeft(2, m, h);
  }

  lemma ShiftingStep(v: nat, m0: nat, v0: nat, m: nat, v2: nat)
    requires Shifting(v, m0, v0, m, v2) && v2 / 2 != 0
    ensures Shifting(v, m0, v0, 2 * m, v2 / 2) && v >= 2 * m
  {
    var h := v2 / 2;
    HalveBounds(v, m, h, v2 % 2);
    MulMonotone(1, h, 2 * m);
    MulAssociate(m, 2, Leading(h));
    MulAssociateLeft(2, m, Leading(h));
  }

  lemma ShiftingEnd(v: nat, m0: nat, v0: nat, m: nat, v2: nat)
    requires Shifting(v, m0, v0, m, v2) && v2 / 2 == 0
    ensures Above(v, m, m) && m == m0 * Leading(v0) && v < 2 * m
  {
    DivModUnique(v, m, 1, v - m);
  }

  /** The error state after a corrupt magnitude: the source and the statistics stay as they are. */
  method GiveUp(d: ArithDecoder, ghost s: Segment, ghost t: Trace)
    requires Alive(d)
    modifies d`ct
    ensures d.ct == -1
    ensures old(Follows(d, s, t)) ==> GaveUp(d, s)
  {
    hide Run, InRange, Flat, Inside;
    d.Fail();
  }

  /** Figure F.24: the bits below the leading bit m0. */
  method GetBits(d: ArithDecoder, st: nat, m0: nat, ghost s: Segment, ghost v: nat, ghost next: Trace)
    returns (ok: bool, r: nat)
    requires Alive(d) && st < ALL_BINS && IsPow2(m0)
    modifies d, d.stats
    ensures d.start == old(d.start)
    ensures ok ==> Alive(d)
    ensures old(Follows(d, s, Bits(st, v, m0, next))) && Above(v, m0, m0) ==> ok && r == v && Follows(d, s, next)
  {
    hide Alive, Follows, GaveUp;
    ok := true;
    r := m0;
    var m := m0;
    while m / 2 != 0
      invariant ok && Alive(d) && d.start == old(d.start) && IsPow2(m)
      invariant old(Follows(d, s, Bits(st, v, m0, next))) && Above(v, m0, m0) ==>
                  Follows(d, s, Bits(st, v, m, next)) && Above(v, m, r)
    {
      ghost var t := Bits(st, v, m, next);
      if Above(v, m, r) {
        NextBit(v, m, r);
      }
      m := m / 2;
      var bit;
      ok, bit := Get(d, st, s, t);
      if !ok {
        return;
      }
      if bit {
        r := r + m;
      }
    }
    assert m == 1;
  }

  /** Figure F.23: the magnitude category from the first bin of a region; m0 is the leading bit so
      far, and a leading bit of 0x8000 is an error. */
  method GetCategory(d: ArithDecoder, st0: nat, m0: nat, ghost s: Segment, ghost v: nat, ghost v0: nat,
                     ghost next: Trace)
    returns (status: Status, m: nat, r: nat)
    requires Alive(d) && st0 + 32 < ALL_BINS && Doubled(m0, m0, 0)
    modifies d, d.stats
    ensures d.start == old(d.start)
    ensures status.Good? ==> Alive(d)
    ensures status.BadCode? ==> d.ct == -1
    ensures Shifting(v, m0, v0, m0, v0) && old(Follows(d, s, Category(st0, v, v0, m0, next))) ==>
              if v < 0x8000 then status.Good? && r == v && m == m0 * Leading(v0) && Follows(d, s, next)
              else status.BadCode? && GaveUp(d, s)
  {
    hide Alive, Follows, GaveUp, Doubled, Shifting, Above, Leading, IsPow2, Bits;
    m, r := m0, 0;
    var st := st0;
    ghost var v2 := v0;
    ghost var good := Shifting(v, m0, v0, m0, v0) && Follows(d, s, Category(st0, v, v0, m0, next));
    DoubledBound(m0, m0, 0);
    var ok, bit := Get(d, st, s, Category(st, v, v2, m, next));
    while ok && bit
      invariant d.start == old(d.start) && (ok ==> Alive(d))
      invariant 0 < 2 * m <= 0x8000 && st0 <= st < st0 + 15 && Doubled(m0, m, st - st0)
      invariant good ==> ok && Shifting(v, m0, v0, m, v2)
      invariant good ==> bit == (v2 / 2 != 0) && Follows(d, s, Category(st, v, v2, m, next).rest)
      decreases 0x8000 - m
    {
      if good {
        ShiftingStep(v, m0, v0, m, v2);
      }
      m := m * 2;
      if m == 0x8000 {
        GiveUp(d, s, Category(st, v, v2, m / 2, next).rest);
        return BadCode, m, 0;
      }
      DoubledStep(m0, m / 2, st - st0);
      st := st + 1;
      DoubledBound(m0, m, st - st0);
      v2 := v2 / 2;
      ok, bit := Get(d, st, s, Category(st, v, v2, m, next));
    }
    if !ok {
      return OutOfData, m, 0;
    }
    if good {
      ShiftingEnd(v, m0, v0, m, v2);
    }
    DoubledIsPow2(m0, m, st - st0);
    ok, r := GetBits(d, st + 14, m, s, v, next);
    status := if ok then Good else OutOfData;
  }

  lemma UnitDoubled(m0: nat)
    requires m0 == 1 || m0 == 2
    ensures Doubled(m0, m0, 0)
  {
  }

  lemma UnitShifting(v: nat, m0: nat)
    requires v > 0 && (m0 == 1 || (m0 == 2 && v / 2 != 0))
    ensures Shifting(v, m0, v / m0, m0, v / m0)
  {
  }

  /** Figures F.19 and F.21: a DC difference in context ctx. Every difference of magnitude up to 2^15
      comes back; a larger one is reported as corrupt. */
  method GetDc(d: ArithDecoder, tbl: nat, ctx: nat, l: nat, u: nat, ghost s: Segment, ghost diff: int,
               ghost next: Trace)
    returns (status: Status, v: int, ctx': nat)
    requires Alive(d) && tbl < NUM_ARITH_TBLS && ctx <= 16
    modifies d, d.stats
    ensures d.start == old(d.start)
    ensures status.Good? ==> Alive(d) && ctx' <= 16
    ensures status.BadCode? ==> d.ct == -1
    ensures old(Follows(d, s, DcTrace(tbl, ctx, diff, next))) ==>
              if Abs(diff) <= 0x8000
              then status.Good? && v == diff && ctx' == NextContext(diff, l, u) && Follows(d, s, next)
              else status.BadCode? && GaveUp(d, s)
  {
    hide Alive, Follows, GaveUp, Shifting, Doubled, Category, Plan, Flat;
    status, v, ctx' := OutOfData, 0, 0;
    var st := DcBin(tbl) + ctx;
    ghost var good := Follows(d, s, DcTrace(tbl, ctx, diff, next));
    ghost var w := if diff == 0 then 0 else Abs(diff) - 1;
    var ok, nonzero := Get(d, st, s, DcTrace(tbl, ctx, diff, next));
    if !ok {
      return;
    }
    if !nonzero {
      return Good, 0, 0;
    }
    var sign;
    ok, sign := Get(d, st + 1, s, DcTrace(tbl, ctx, diff, next).rest);
    if !ok {
      return;
    }
    st := st + 2;
    st := st + if sign then 1 else 0;
    var large;
    ok, large := Get(d, st, s, DcMagnitude(tbl, st, w, next));
    if !ok {
      return;
    }
    var m := 0;
    if large {
      UnitDoubled(1);
      if good {
        UnitShifting(w, 1);
      }
      status, m, v := GetCategory(d, DcBin(tbl) + 20, 1, s, w, w, next);
      if !status.Good? {
        return;
      }
    }
    ctx' := if m < Pow2(l) / 2 then 0
            else if m > Pow2(u) / 2 then 12 + (if sign then 4 else 0)
            else 4 + (if sign then 4 else 0);
    v := v + 1;
    if sign {
      v := -v;
    }
    status := Good;
  }

  /** Figure F.21: a nonzero AC coefficient at index k, after its zero run. */
  method GetCoef(d: ArithDecoder, tbl: nat, k: nat, kx: nat, ghost s: Segment, ghost coef: JCOEF, ghost next: Trace)
    returns (status: Status, v: int)
    requires Alive(d) && tbl < NUM_ARITH_TBLS && 0 < k < 64
    modifies d, d.stats
    ensures d.start == old(d.start)
    ensures status.Good? ==> Alive(d)
    ensures status.BadCode? ==> d.ct == -1
    ensures coef != 0 && old(Follows(d, s, CoefTrace(tbl, k, kx, coef, next))) ==>
              status.Good? && v == coef && Follows(d, s, next)
  {
    hide Alive, Follows, GaveUp, Shifting, Doubled, Category, Plan, Flat;
    status, v := OutOfData, 0;
    var st := AcBin(tbl) + 3 * (k - 1) + 2;
    ghost var good := coef != 0 && Follows(d, s, CoefTrace(tbl, k, kx, coef, next));
    ghost var w := if coef == 0 then 0 else Abs(coef) - 1;
    ghost var t := AcMagnitude(st, Region(tbl, k, kx), w, next);
    var ok, sign := Get(d, FIXED_BIN, s, Then(FIXED_BIN, coef < 0, t));
    if !ok {
      return;
    }
    var large;
    ok, large := Get(d, st, s, t);
    if !ok {
      return;
    }
    if large {
      var larger;
      ok, larger := Get(d, st, s, t.rest);
      if !ok {
        return;
      }
      v := 1;
      if larger {
        UnitDoubled(2);
        if good {
          UnitShifting(w, 2);
        }
        var m;
        status, m, v := GetCategory(d, Region(tbl, k, kx), 2, s, w, w / 2, next);
        if !status.Good? {
          return;
        }
      }
    }
    v := v + 1;
    if sign {
      v := -v;
    }
    status := Good;
  }

  /** The zigzag positions 1..|zz|-1 of a block hold zz up to index k and zeros above it. */
  ghost predicate Filled(block: array<JCOEF>, order: seq<nat>, zz: seq<JCOEF>, k: nat)
    requires block.Length == 64 && IsOrder(order) && |zz| <= 64
    reads block
  {
    forall i :: 0 < i < |zz| ==> block[order[i]] == if i <= k then zz[i] else 0
  }

  lemma FilledFromZero(block: array<JCOEF>, order: seq<nat>, zz: seq<JCOEF>)
    requires block.Length == 64 && IsOrder(order) && |zz| <= 64
    requires forall i :: 0 < i < 64 ==> block[i] == 0
    ensures Filled(block, order, zz, 0)
  {
  }

  /** The zero run before the next nonzero coefficient, which is at index k. */
  method GetRun(d: ArithDecoder, tbl: nat, kx: nat, limSe: nat, k0: nat, ghost s: Segment, ghost zz: seq<JCOEF>,
                ghost next: Trace)
    returns (status: Status, k: nat)
    requires Alive(d) && tbl < NUM_ARITH_TBLS && k0 < limSe < 64 && |zz| == limSe + 1
    modifies d, d.stats
    ensures d.start == old(d.start)
    ensures status.Good? ==> Alive(d) && k0 < k <= limSe
    ensures status.BadCode? ==> d.ct == -1
    ensures !ZeroFrom(zz, k0 + 1) && old(Follows(d, s, RunTrace(tbl, kx, zz, k0, next))) ==>
              && status.Good? && zz[k] != 0 && (forall i :: k0 < i < k ==> zz[i] == 0)
              && Follows(d, s, CoefTrace(tbl, k, kx, zz[k], AcTrace(tbl, kx, zz, k, next)))
  {
    hide Alive, Follows, GaveUp, CoefTrace, AcTrace, Plan, Flat;
    ghost var good := !ZeroFrom(zz, k0 + 1) && Follows(d, s, RunTrace(tbl, kx, zz, k0, next));
    var st := AcBin(tbl) + 3 * k0;
    var ok, nonzero := Get(d, st + 1, s, if good then RunTrace(tbl, kx, zz, k0, next) else Done);
    k := k0 + 1;
    while ok && !nonzero
      invariant k0 < k <= limSe && st == AcBin(tbl) + 3 * (k - 1)
      invariant d.start == old(d.start) && (ok ==> Alive(d))
      invariant good ==> !ZeroFrom(zz, k) && ok && (nonzero <==> zz[k] != 0) && forall i :: k0 < i < k ==> zz[i] == 0
      invariant good ==> Follows(d, s, RunTrace(tbl, kx, zz, k - 1, next).rest)
      decreases limSe - k
    {
      st := st + 3;
      if k >= limSe {
        d.Fail();
        return BadCode, k;
      }
      ok, nonzero := Get(d, st + 1, s, if good then RunTrace(tbl, kx, zz, k, next) else Done);
      k := k + 1;
    }
    status := if ok then Good else OutOfData;
  }

  lemma FilledUpTo(block: array<JCOEF>, order: seq<nat>, zz: seq<JCOEF>, k: nat, m: nat)
    requires block.Length == 64 && IsOrder(order) && |zz| <= 64 && Filled(block, order, zz, k)
    requires k <= m && forall i :: k < i <= m && i < |zz| ==> zz[i] == 0
    ensures Filled(block, order, zz, m)
  {
  }

  lemma CoefsLeft(tbl: nat, kx: nat, zz: seq<JCOEF>, k: nat, next: Trace)
    requires k + 1 < |zz|
    ensures AcTrace(tbl, kx, zz, k, next).Then? && AcTrace(tbl, kx, zz, k, next).bit == ZeroFrom(zz, k + 1)
    ensures AcTrace(tbl, kx, zz, k, next) == if ZeroFrom(zz, k + 1) then Then(AcBin(tbl) + 3 * k, true, next)
                                             else Then(AcBin(tbl) + 3 * k, false, RunTrace(tbl, kx, zz, k, next))
  {
  }

  method StoreCoef(block: array<JCOEF>, order: seq<nat>, k: nat, v: int, ghost zz: seq<JCOEF>)
    requires block.Length == 64 && IsOrder(order) && 0 < k < |zz| <= 64
    modifies block
    ensures block[0] == old(block[0])
    ensures old(Filled(block, order, zz, k - 1)) && v == zz[k] ==> Filled(block, order, zz, k)
  {
    block[order[k]] := ToCoef(v);
  }

  /** Figure F.20: the AC coefficients of a block, stored in natural order. */
  method GetAc(d: ArithDecoder, tbl: nat, kx: nat, limSe: nat, order: seq<nat>, block: array<JCOEF>,
               ghost s: Segment, ghost zz: seq<JCOEF>, ghost next: Trace)
    returns (status: Status)
    requires Alive(d) && tbl < NUM_ARITH_TBLS && 0 < limSe < 64 && IsOrder(order) && block.Length == 64
    requires |zz| == limSe + 1
    modifies d, d.stats, block
    ensures d.start == old(d.start)
    ensures status.Good? ==> Alive(d)
    ensures status.BadCode? ==> d.ct == -1
    ensures block[0] == old(block[0])
    ensures old(Follows(d, s, AcTrace(tbl, kx, zz, 0, next))) && old(Filled(block, order, zz, 0)) ==>
              status.Good? && Follows(d, s, next) && Filled(block, order, zz, limSe)
  {
    hide Alive, Follows, GaveUp, CoefTrace, AcTrace, RunTrace, Filled, IsOrder, Plan, Flat;
    var k := 0;
    ghost var good := Follows(d, s, AcTrace(tbl, kx, zz, 0, next)) && Filled(block, order, zz, 0);
    while k < limSe
      invariant Alive(d) && d.start == old(d.start) && k <= limSe
      invariant block[0] == old(block[0])
      invariant good ==> Follows(d, s, AcTrace(tbl, kx, zz, k, next)) && Filled(block, order, zz, k)
    {
      CoefsLeft(tbl, kx, zz, k, next);
      var ok, eob := Get(d, AcBin(tbl) + 3 * k, s, AcTrace(tbl, kx, zz, k, next));
      if !ok {
        return OutOfData;
      }
      if eob {
        if good {
          FilledUpTo(block, order, zz, k, limSe);
        }
        return Good;
      }
      ghost var k0 := k;
      status, k := GetRun(d, tbl, kx, limSe, k, s, zz, next);
      if !status.Good? {
        return;
      }
      if good {
        FilledUpTo(block, order, zz, k0, k - 1);
      }
      var v;
      ghost var rest := AcTrace(tbl, kx, zz, k, next);
      status, v := GetCoef(d, tbl, k, kx, s, zz[k], rest);
      if !status.Good? {
        return;
      }
      StoreCoef(block, order, k, v, zz);
    }
    NoCoefsLeft(tbl, kx, zz, next);
    return Good;
  }

  lemma NoCoefsLeft(tbl: nat, kx: nat, zz: seq<JCOEF>, next: Trace)
    requires zz != []
    ensures AcTrace(tbl, kx, zz, |zz| - 1, next) == next
  {
  }
}
