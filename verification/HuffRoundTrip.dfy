// What a Huffman scan encoder writes, a scan decoder reads back: MCU by MCU, through restarts, from bytes
// that arrive in any pieces.
module HuffRoundTrip {
  import opened Powers
  import opened Coefs
  import opened Digits
  import opened Segments
  import opened HuffCode
  import opened HuffTables
  import opened HuffBits
  import opened HuffBlock
  import opened HuffSpectral
  import opened HuffRefine
  import opened HuffRefineDecode
  import opened HuffResume
  import opened HuffScan
  import opened HuffWriter
  import opened HuffReader
  import opened HuffEncoder
  import opened HuffDecoder

  // ----- precision

  /** The value of a coefficient at zigzag index k with its low al bits gone: DC values are shifted down,
      AC values divided. */
  function Approx(v: int, k: nat, al: nat): int {
    if k == 0 then v / Pow2(al) * Pow2(al) else Truncated(v, al)
  }

  /** The scan codes this index of block i, and the decoder wants it. */
  predicate Coded(sc: Scan, limit: nat, k: nat) {
    sc.ss <= k <= sc.se && (sc.progressive || k < limit)
  }

  /** b holds the coded coefficients of orig to the precision before the scan. */
  ghost predicate Before(sc: Scan, b: Block, orig: Block)
    requires IsScan(sc)
  {
    forall k :: sc.ss <= k <= sc.se ==> b[sc.order[k]] == if sc.ah == 0 then 0 else Approx(orig[sc.order[k]], k, sc.ah)
  }

  /** What a scan can start from: decoding the DC coefficient alone takes any block. */
  ghost predicate MayStart(sc: Scan, b: Block, orig: Block)
    requires IsScan(sc)
  {
    ModeOf(sc).DcFirst? || ModeOf(sc).DcRefine? || Before(sc, b, orig)
  }

  /** b holds the coded coefficients of orig to the precision of the scan. */
  ghost predicate After(sc: Scan, limit: nat, b: Block, orig: Block)
    requires IsScan(sc)
  {
    forall k :: 0 <= k < 64 && Coded(sc, limit, k) ==> b[sc.order[k]] == Approx(orig[sc.order[k]], k, sc.al)
  }

  /** What the scan makes of block b0: coefficients it does not code stay, and from the precision before the scan
      it gets to that of the scan. */
  ghost predicate Improved(sc: Scan, limit: nat, b0: Block, b: Block, orig: Block)
    requires IsScan(sc)
  {
    && (sc.progressive ==> forall k :: 0 <= k < 64 && !Coded(sc, limit, k) ==> b[sc.order[k]] == b0[sc.order[k]])
    && (Before(sc, b0, orig) ==> After(sc, limit, b, orig))
  }

  lemma TruncatedFits(v: int, al: nat)
    requires -0x8000 <= v < 0x8000
    ensures -0x8000 <= Truncated(v, al) < 0x8000
  {
    hide Pow2;
    TruncatedBy(v, Pow2(al));
  }

  lemma TruncatedBy(v: int, p: nat)
    requires p > 0
    ensures var t := (if v < 0 then -(-v / p) else v / p) * p;
            if v < 0 then v <= t <= 0 else 0 <= t <= v
  {
    var q, r := Abs(v) / p, Abs(v) % p;
    assert Abs(v) == q * p + r;
    MulMonotone(0, q, p);
    assert -q * p == -(q * p);
  }

  /** Shifting down twice. */
  lemma ShiftTwice(v: int, al: nat)
    ensures ShiftDown(ShiftDown(v, al), 1) == ShiftDown(v, al + 1)
  {
    hide Pow2;
    Pow2Add(al, 1);
    Pow2Values();
    DivDiv(Abs(v), Pow2(al), 2);
    QuotientSign(Abs(v), Pow2(al));
    ShiftSign(v, Pow2(al));
  }

  lemma ShiftSign(v: int, p: nat)
    requires p > 0
    ensures var t := if v < 0 then -(-v / p) else v / p;
            (if t < 0 then -(-t / 2) else t / 2) == if v < 0 then -(-v / p / 2) else v / p / 2
  {
    QuotientSign(Abs(v), p);
  }

  lemma FloorFits(v: int, al: nat)
    requires -0x8000 <= v < 0x8000 && al <= MAX_AL
    ensures -0x8000 <= v / Pow2(al) * Pow2(al) < 0x8000
  {
    hide Pow2;
    Pow2Add(al, 15 - al);
    Pow2Values();
    FloorBounds(v, Pow2(al), Pow2(15 - al));
  }

  lemma FloorBounds(v: int, p: int, d: int)
    requires p > 0 && d > 0 && p * d == 0x8000 && -0x8000 <= v < 0x8000
    ensures -0x8000 <= v / p * p <= v
  {
    var q, r := v / p, v % p;
    assert v == q * p + r;
    CompareQuotient(q, r, p, -d);
    NegateProduct(d, p);
    MulMonotone(-d, q, p);
  }

  lemma NegateProduct(d: int, p: int)
    ensures -d * p == -(p * d)
  {
  }

  // ----- one block

  lemma DcFirstBlock(sc: Scan, ts: Tables, limit: nat, st: DecState, i: nat, b: Block, orig: Block, p: seq<int>,
                     next: Ops, tail: seq<bool>)
    requires IsScan(sc) && ModeOf(sc).DcFirst? && GoodTables(ts) && IsDecState(st) && IsPred(p) && i < |sc.membership|
    requires st.pred[sc.membership[i]] == p[sc.membership[i]] &&
             st.s == BitsFrom(ts, BlockOps(sc, p, i, orig, next), tail)
    requires Covered(ts, BlockOps(sc, p, i, orig, next))
    ensures var r := BlockDecode(sc, ts, limit, st, i, b);
            && Improved(sc, limit, b, r.blocks[0], orig) &&
                r.st == DecState(st.pred[sc.membership[i] := DcShift(sc, orig)], st.run, BitsFrom(ts, next, tail))
            && Covered(ts, next)
  {
    hide BitsFrom, DcDiffAt, AfterDc, Covered, DcOps, Legal, Pow2, IsOrder;
    var ci := sc.membership[i];
    DcDecodes(ts, sc.comps[ci].dcTbl, DcShift(sc, orig) - p[ci], next, tail);
    FloorFits(orig[0], sc.al);
    OrderStart(sc);
  }

  lemma DcRefineBlock(sc: Scan, ts: Tables, limit: nat, st: DecState, i: nat, b: Block, orig: Block, p: seq<int>,
                      next: Ops, tail: seq<bool>)
    requires IsScan(sc) && ModeOf(sc).DcRefine? && GoodTables(ts) && IsDecState(st) && IsPred(p) && i < |sc.membership|
    requires st.s == BitsFrom(ts, BlockOps(sc, p, i, orig, next), tail)
    ensures var r := BlockDecode(sc, ts, limit, st, i, b);
            && Improved(sc, limit, b, r.blocks[0], orig) && r.st == st.(s := BitsFrom(ts, next, tail))
            && Covered(ts, BlockOps(sc, p, i, orig, next)) == Covered(ts, next)
  {
    hide BitsFrom, Legal, Pow2, IsOrder, ToCoef;
    OrderStart(sc);
    var v := DcShift(sc, orig);
    OneBit(ts, v, next, tail);
    if Before(sc, b, orig) {
      AddBit(b[0], orig[0], sc.al);
    }
  }

  lemma OrderStart(sc: Scan)
    requires IsScan(sc)
    ensures |sc.order| == 64 && sc.order[0] == 0 && (sc.progressive && sc.ss == 0 ==> sc.se == 0)
    ensures sc.ah != 0 ==> sc.ah == sc.al + 1
    ensures sc.al <= MAX_AL && forall k :: 0 < k < 64 ==> 0 < sc.order[k] < 64
  {
  }

  lemma OneBit(ts: Tables, v: int, next: Ops, tail: seq<bool>)
    ensures var s := BitsFrom(ts, Then(Raw(v, 1), next), tail);
            Peek(s, 1) == v % 2 && Rest(s, 1) == BitsFrom(ts, next, tail)
  {
    PeekNum(v, 1, BitsFrom(ts, next, tail));
    assert Pow2(1) == 2;
  }

  /** Setting the next bit of a DC value. */
  lemma AddBit(b: JCOEF, v: int, al: nat)
    requires -0x8000 <= v < 0x8000 && al <= MAX_AL && b == v / Pow2(al + 1) * Pow2(al + 1)
    ensures (if v / Pow2(al) % 2 == 1 then SetBit(b, al) else b) == v / Pow2(al) * Pow2(al)
  {
    hide Pow2;
    var p := Pow2(al);
    Pow2Add(al, 1);
    Pow2Values();
    FloorFits(v, al);
    var q := v / p;
    var h := v / Pow2(al + 1);
    DivDivBy2(v, p);
    assert q == 2 * h + q % 2;
    MulAssociate(h, 2, p);
    MulAdd(2 * h, 1, p);
    DivModUnique(b, p, 2 * h, 0);
  }

  lemma DivDivBy2(v: int, p: nat)
    requires p > 0
    ensures v / (p * 2) == v / p / 2
  {
    DivDivInt(v, p, 2);
  }

  lemma ZigzagIsPlain(sc: Scan, b: Block)
    requires IsScan(sc) && !sc.progressive
    ensures forall k :: 0 <= k <= sc.se ==> Zigzag(sc, b)[k] == b[sc.order[k]]
  {
  }

  lemma SequentialBlock(sc: Scan, ts: Tables, limit: nat, st: DecState, i: nat, b: Block, orig: Block, p: seq<int>,
                        next: Ops, tail: seq<bool>)
    requires IsScan(sc) && ModeOf(sc).Sequential? && GoodTables(ts) && IsDecState(st) && IsPred(p) &&
             i < |sc.membership|
    requires limit > 0 ==> st.pred[sc.membership[i]] == p[sc.membership[i]]
    requires st.s == BitsFrom(ts, BlockOps(sc, p, i, orig, next), tail) && Covered(ts, BlockOps(sc, p, i, orig, next))
    requires AcInRange(Zigzag(sc, orig), 1) && Before(sc, b, orig)
    ensures var r := BlockDecode(sc, ts, limit, st, i, b);
            && Improved(sc, limit, b, r.blocks[0], orig) && Covered(ts, next)
            && r.st == DecState(if limit > 0 then st.pred[sc.membership[i] := orig[0]] else st.pred, st.run,
                BitsFrom(ts, next, tail))
  {
    hide BitsFrom, DcDiffAt, AfterDc, Covered, DcOps, AcOps, AcDecode, Legal, Pow2, AcInRange, Zigzag, DcShift;
    var ci := sc.membership[i];
    var comp := sc.comps[ci];
    var zz := Zigzag(sc, orig);
    ZigzagIsPlain(sc, orig);
    OrderStart(sc);
    var diff := orig[0] - p[ci];
    DcDecodes(ts, comp.dcTbl, diff, AcOps(comp.acTbl, zz, 1, 0, next), tail);
    var b1 := if limit > 0 then b[0 := ToCoef(st.pred[ci] + diff)] else b;
    assert Filled(b1, sc.order, zz, 1, limit);
    AcDecodes(ts, comp.acTbl, sc.order, zz, b1, 1, limit, next, tail);
    NoApprox(sc, orig);
  }

  lemma NoApprox(sc: Scan, orig: Block)
    requires IsScan(sc) && !sc.progressive
    ensures forall k :: 0 <= k <= sc.se ==> Approx(orig[sc.order[k]], k, sc.al) == orig[sc.order[k]]
  {
    assert Pow2(0) == 1;
  }

  // ----- bands

  /** The band of a first scan fits, and before it the block is empty there. */
  lemma BandBefore(sc: Scan, b: Block, orig: Block)
    requires IsScan(sc) && sc.progressive && sc.ss > 0 && Before(sc, b, orig)
    ensures RefineFits(Zigzag(sc, orig), sc.ss, sc.al)
    ensures sc.ah == 0 ==> Banded(b, sc.order, Zigzag(sc, orig), sc.ss, sc.ss, sc.al)
    ensures sc.ah != 0 ==> Half(b, sc.order, Zigzag(sc, orig), sc.ss, sc.ss, sc.al)
  {
    hide Pow2;
    var zz := Zigzag(sc, orig);
    forall k | sc.ss <= k <= sc.se
      ensures -0x8000 <= zz[k] * Pow2(sc.al) < 0x8000
      ensures sc.ah != 0 ==> Held(zz[k], sc.al) == Approx(orig[sc.order[k]], k, sc.ah)
    {
      TruncatedFits(orig[sc.order[k]], sc.al);
      ShiftTwice(orig[sc.order[k]], sc.al);
    }
  }

  lemma BandAfter(sc: Scan, limit: nat, b0: Block, b: Block, orig: Block)
    requires IsScan(sc) && sc.progressive && sc.ss > 0
    requires forall k :: 0 <= k < 64 && (k < sc.ss || k > sc.se) ==> b[sc.order[k]] == b0[sc.order[k]]
    requires Banded(b, sc.order, Zigzag(sc, orig), sc.ss, sc.se + 1, sc.al) ||
             Half(b, sc.order, Zigzag(sc, orig), sc.ss, sc.se + 1, sc.al)
    ensures Improved(sc, limit, b0, b, orig)
  {
    hide Pow2;
  }

  /** Outside the band a refined block stays as it was. */
  lemma BandKept(t: HuffTbl, order: seq<nat>, s: seq<bool>, b: Block, run: nat, ss: nat, se: nat, al: nat)
    requires Legal(t.bits) && IsOrder(order) && se < 64 && al <= MAX_AL
    ensures var d := RefineBand(t, order, s, b, run, ss, se, al);
            forall k :: 0 <= k < 64 && (k < ss || k > se) ==> d.b[order[k]] == b[order[k]]
  {
    hide RefineDecode, Corrections, Legal, Advance;
    if run > 0 {
      CorrectionsAdvance(order, s, b, ss, 66, se, al);
      AdvanceKeeps(order, s, b, ss, 66, se, al);
      AdvanceInBand(order, s, b, ss, 66, se, al);
    } else {
      RefineKeeps(t, order, s, b, ss, se, al);
    }
  }

  // ----- one MCU

  /** The encoder's last DC values are the decoder's, for components the decoder wants. */
  ghost predicate SamePred(sc: Scan, limits: seq<nat>, p: seq<int>, q: seq<int>)
    requires IsScan(sc) && |limits| == |sc.membership| && |p| == |q| == MAX_COMPS_IN_SCAN
  {
    forall i :: 0 <= i < |limits| && (sc.progressive || limits[i] > 0) ==> p[sc.membership[i]] == q[sc.membership[i]]
  }

  /** A component is wanted in all its blocks or in none. */
  ghost predicate AreLimits(sc: Scan, limits: seq<nat>) {
    && |limits| == |sc.membership|
    && forall i, j :: 0 <= i < |limits| && 0 <= j < |limits| && sc.membership[i] == sc.membership[j] ==>
        (limits[i] > 0 <==> limits[j] > 0)
  }

  /** A decoder in state st stands before the MCUs of the rest of a segment, where an encoder has last DC values p. */
  ghost predicate Stands(sc: Scan, ts: Tables, limits: seq<nat>, p: seq<int>, st: DecState, mcus: Mcus, tail: seq<bool>)
  {
    && IsScan(sc) && AreLimits(sc, limits) && IsPred(p) && IsDecState(st) && AreMcus(sc, mcus)
    && match ModeOf(sc)
       case AcFirst => FirstStands(ts, sc.comps[0].acTbl, sc.ss, Bands(sc, mcus), st.run, st.s, tail)
       case AcRefine => RefineStands(ts, sc.comps[0].acTbl, sc.ss, Bands(sc, mcus), st.run, st.s, tail)
       case _ =>
         && SamePred(sc, limits, p, st.pred) && Covered(ts, DcSegment(sc, p, mcus))
         && st.s == BitsFrom(ts, DcSegment(sc, p, mcus), tail)
  }

  ghost predicate BlocksBefore(sc: Scan, blocks: seq<Block>, mcu: Mcu)
    requires IsScan(sc)
  {
    |blocks| == |mcu| && forall i :: 0 <= i < |mcu| ==> MayStart(sc, blocks[i], mcu[i])
  }

  ghost predicate BlocksAfter(sc: Scan, limits: seq<nat>, before: seq<Block>, blocks: seq<Block>, mcu: Mcu)
    requires IsScan(sc)
  {
    && |before| == |blocks| == |mcu| == |limits|
    && forall i :: 0 <= i < |mcu| ==> Improved(sc, limits[i], before[i], blocks[i], mcu[i])
  }

  lemma {:induction false} BlocksDecoded(sc: Scan, ts: Tables, limits: seq<nat>, p: seq<int>, st: DecState, i: nat,
                                         blocks: seq<Block>,
                                         mcu: Mcu, next: Ops, tail: seq<bool>)
    requires IsScan(sc) && !ModeOf(sc).AcFirst? && !ModeOf(sc).AcRefine? && GoodTables(ts) && AreLimits(sc, limits)
    requires IsPred(p) && IsDecState(st) && |mcu| == |sc.membership| && i <= |mcu| && BlocksBefore(sc, blocks, mcu)
    requires McuInRange(sc, p, mcu, i) && SamePred(sc, limits, p, st.pred)
    requires st.s == BitsFrom(ts, McuOps(sc, p, mcu, i, next), tail) && Covered(ts, McuOps(sc, p, mcu, i, next))
    ensures var r := BlocksDecode(sc, ts, limits, st, i, blocks);
            && SamePred(sc, limits, McuPred(sc, p, mcu, i), r.st.pred) && r.st.run == st.run
            && r.st.s == BitsFrom(ts, next, tail) && Covered(ts, next)
            && forall k :: i <= k < |mcu| ==> Improved(sc, limits[k], blocks[k], r.blocks[k - i], mcu[k])
    decreases |mcu| - i
  {
    hide BitsFrom, Covered, BlockOps, BlockDecode, GoodTables, IsOrder, Improved, MayStart, BlockInRange;
    if i < |mcu| {
      var p' := NextPred(sc, p, i, mcu[i]);
      var rest := McuOps(sc, p', mcu, i + 1, next);
      OneBlockDecoded(sc, ts, limits, p, st, i, blocks[i], mcu[i], rest, tail);
      var r := BlockDecode(sc, ts, limits[i], st, i, blocks[i]);
      BlocksDecoded(sc, ts, limits, p', r.st, i + 1, blocks, mcu, next, tail);
    }
  }

  lemma OneBlockDecoded(sc: Scan, ts: Tables, limits: seq<nat>, p: seq<int>, st: DecState, i: nat, b: Block,
                        orig: Block,
                        next: Ops, tail: seq<bool>)
    requires IsScan(sc) && !ModeOf(sc).AcFirst? && !ModeOf(sc).AcRefine? && GoodTables(ts) && AreLimits(sc, limits)
    requires IsPred(p) && IsDecState(st) && i < |sc.membership| && MayStart(sc, b, orig)
    requires BlockInRange(sc, p, i, orig) && SamePred(sc, limits, p, st.pred)
    requires st.s == BitsFrom(ts, BlockOps(sc, p, i, orig, next), tail) && Covered(ts, BlockOps(sc, p, i, orig, next))
    ensures var r := BlockDecode(sc, ts, limits[i], st, i, b);
            && SamePred(sc, limits, NextPred(sc, p, i, orig), r.st.pred) && r.st.run == st.run
            && r.st.s == BitsFrom(ts, next, tail) && Covered(ts, next) && Improved(sc, limits[i], b, r.blocks[0], orig)
  {
    hide BitsFrom, Covered, BlockDecode, GoodTables, IsOrder, Improved, Before, AcOps, DcOps, Zigzag, AcInRange;
    if ModeOf(sc).Sequential? {
      SequentialBlock(sc, ts, limits[i], st, i, b, orig, p, next, tail);
      WholeDc(sc, orig);
    } else if ModeOf(sc).DcFirst? {
      DcFirstBlock(sc, ts, limits[i], st, i, b, orig, p, next, tail);
    } else {
      DcRefineBlock(sc, ts, limits[i], st, i, b, orig, p, next, tail);
    }
  }

  /** One MCU: the decoder recovers its coefficients to the precision of the scan, and stands before the next. */
  lemma McuDecoded(sc: Scan, ts: Tables, limits: seq<nat>, p: seq<int>, st: DecState, blocks: seq<Block>, mcus: Mcus,
                   tail: seq<bool>)
    requires Stands(sc, ts, limits, p, st, mcus, tail) && GoodTables(ts) && mcus != []
    requires McuInRange(sc, p, mcus[0], 0) && BlocksBefore(sc, blocks, mcus[0])
    ensures var r := McuDecode(sc, ts, limits, st, blocks);
            && BlocksAfter(sc, limits, blocks, r.blocks, mcus[0])
            && Stands(sc, ts, limits, PredAfter(sc, p, mcus[0]), r.st, mcus[1..], tail)
  {
    hide IsScan, Stands, GoodTables, McuInRange, McuDecode, BlocksBefore, BlocksAfter;
    StandsSizes(sc, ts, limits, p, st, blocks, mcus, tail);
    OneBlockOf(sc);
    if ModeOf(sc).AcFirst? {
      FirstMcu(sc, ts, limits, p, st, blocks, mcus, tail);
    } else if ModeOf(sc).AcRefine? {
      RefineMcu(sc, ts, limits, p, st, blocks, mcus, tail);
    } else {
      DcMcu(sc, ts, limits, p, st, blocks, mcus, tail);
    }
  }

  lemma DcMcu(sc: Scan, ts: Tables, limits: seq<nat>, p: seq<int>, st: DecState, blocks: seq<Block>, mcus: Mcus,
              tail: seq<bool>)
    requires Stands(sc, ts, limits, p, st, mcus, tail) && GoodTables(ts) && mcus != []
    requires !ModeOf(sc).AcFirst? && !ModeOf(sc).AcRefine?
    requires McuInRange(sc, p, mcus[0], 0) && BlocksBefore(sc, blocks, mcus[0])
    ensures var r := McuDecode(sc, ts, limits, st, blocks);
            && BlocksAfter(sc, limits, blocks, r.blocks, mcus[0])
            && Stands(sc, ts, limits, McuPred(sc, p, mcus[0], 0), r.st, mcus[1..], tail)
  {
    hide BitsFrom, Covered, GoodTables, IsOrder, Improved, MayStart, McuInRange, BlocksDecode, DcSegment;
    DcSegmentStep(sc, p, mcus);
    BlocksDecoded(sc, ts, limits, p, st, 0, blocks, mcus[0], DcSegment(sc, McuPred(sc, p, mcus[0], 0), mcus[1..]),
        tail);
  }

  lemma StandsSizes(sc: Scan, ts: Tables, limits: seq<nat>, p: seq<int>, st: DecState, blocks: seq<Block>, mcus: Mcus,
                    tail: seq<bool>)
    requires Stands(sc, ts, limits, p, st, mcus, tail) && mcus != [] && BlocksBefore(sc, blocks, mcus[0])
    ensures IsScan(sc) && IsPred(p) && IsDecState(st) && AreMcus(sc, mcus)
    ensures |blocks| == |limits| == |sc.membership| == |mcus[0]|
  {
    hide BitsFrom, Covered, MayStart, FirstStands, RefineStands;
  }

  lemma OneBlockOf(sc: Scan)
    requires IsScan(sc)
    ensures |sc.membership| > 0 && (ModeOf(sc).AcFirst? || ModeOf(sc).AcRefine? ==>
            |sc.membership| == 1 && sc.progressive && sc.ss > 0)
  {
  }

  lemma DcSegmentStep(sc: Scan, p: seq<int>, mcus: Mcus)
    requires IsScan(sc) && IsPred(p) && AreMcus(sc, mcus) && mcus != []
    ensures DcSegment(sc, p, mcus) == McuOps(sc, p, mcus[0], 0, DcSegment(sc, McuPred(sc, p, mcus[0], 0), mcus[1..]))
  {
  }

  lemma BandsStep(sc: Scan, mcus: Mcus)
    requires IsScan(sc) && AreMcus(sc, mcus) && mcus != []
    ensures AreMcus(sc, mcus[1..]) && Bands(sc, mcus)[0] == Zigzag(sc, mcus[0][0]) &&
            Bands(sc, mcus)[1..] == Bands(sc, mcus[1..])
  {
    hide Zigzag;
  }

  lemma AcTable(sc: Scan, ts: Tables)
    requires IsScan(sc) && GoodTables(ts)
    ensures |sc.comps| > 0 && sc.comps[0].acTbl < NUM_HUFF_TBLS && Legal(ts[AcSlot(sc.comps[0].acTbl)].bits) &&
            IsOrder(sc.order)
    ensures sc.se < 64
  {
    hide Legal;
  }

  lemma BandSizes(sc: Scan, mcus: Mcus)
    requires IsScan(sc) && AreMcus(sc, mcus) && sc.ss > 0 && sc.progressive
    ensures forall z :: z in Bands(sc, mcus) ==> sc.ss < |z|
  {
  }

  lemma FirstFits(sc: Scan, zz: Zz)
    requires IsScan(sc) && RefineFits(zz, sc.ss, sc.al) && AcInRange(zz, sc.ss)
    ensures Fits(zz, sc.ss, sc.al)
  {
  }

  lemma FirstMcu(sc: Scan, ts: Tables, limits: seq<nat>, p: seq<int>, st: DecState, blocks: seq<Block>, mcus: Mcus,
                 tail: seq<bool>)
    requires Stands(sc, ts, limits, p, st, mcus, tail) && GoodTables(ts) && mcus != [] && ModeOf(sc).AcFirst?
    requires McuInRange(sc, p, mcus[0], 0) && BlocksBefore(sc, blocks, mcus[0])
    ensures var r := McuDecode(sc, ts, limits, st, blocks);
            && BlocksAfter(sc, limits, blocks, r.blocks, mcus[0])
            && Stands(sc, ts, limits, p, r.st, mcus[1..], tail)
  {
    hide BitsFrom, Covered, IsOrder, Improved, Before, FirstStands, Zigzag, FirstDecode, Banded, AcInRange, McuInRange,
         GoodTables, Bands, IsPred, Legal, Fits, IsScan;
    OneBlockOf(sc);
    AcTable(sc, ts);
    BandSizes(sc, mcus);
    BandsStep(sc, mcus);
    BandInRange(sc, p, mcus[0]);
    BandBefore(sc, blocks[0], mcus[0][0]);
    FirstFits(sc, Zigzag(sc, mcus[0][0]));
    FirstBlock(ts, sc.comps[0].acTbl, sc.order, sc.ss, sc.al, Bands(sc, mcus), st.run, st.s, tail, blocks[0]);
    var r := McuDecode(sc, ts, limits, st, blocks);
    BandAfter(sc, limits[0], blocks[0], r.blocks[0], mcus[0][0]);
  }

  lemma RefineMcu(sc: Scan, ts: Tables, limits: seq<nat>, p: seq<int>, st: DecState, blocks: seq<Block>, mcus: Mcus,
                  tail: seq<bool>)
    requires Stands(sc, ts, limits, p, st, mcus, tail) && GoodTables(ts) && mcus != [] && ModeOf(sc).AcRefine?
    requires BlocksBefore(sc, blocks, mcus[0])
    ensures var r := McuDecode(sc, ts, limits, st, blocks);
            && BlocksAfter(sc, limits, blocks, r.blocks, mcus[0])
            && Stands(sc, ts, limits, p, r.st, mcus[1..], tail)
  {
    hide BitsFrom, Covered, IsOrder, Improved, Before, RefineStands, Zigzag, RefineDecode, Corrections, Half, Banded,
         GoodTables, Bands, IsPred, Legal, Fits, IsScan;
    OneBlockOf(sc);
    AcTable(sc, ts);
    BandSizes(sc, mcus);
    BandsStep(sc, mcus);
    BandBefore(sc, blocks[0], mcus[0][0]);
    RefineBlock(ts, sc.comps[0].acTbl, sc.order, sc.ss, sc.al, Bands(sc, mcus), st.run, st.s, tail, blocks[0]);
    OrderStart(sc);
    BandKept(ts[AcSlot(sc.comps[0].acTbl)], sc.order, st.s, blocks[0], st.run, sc.ss, sc.se, sc.al);
    var r := McuDecode(sc, ts, limits, st, blocks);
    BandAfter(sc, limits[0], blocks[0], r.blocks[0], mcus[0][0]);
  }

  // ----- segments in the source

  /** The bits of a stuffed segment, and the marker behind it. */
  lemma {:induction false} SegmentInSource(src: seq<byte>, p: nat, s: Segment, n: nat)
    requires p <= |src| && n <= |s.data| && IsMarker(s.marker) && src[p..] == Coming(s, n)
    ensures SegBits(src, p) == BytesBits(s.data[n..]) + [false]
    ensures FindMarker(src, |src|, p) == Marker(s.marker, |src| - |s.rest|)
    ensures Ends(src, |src|, p) && |s.rest| <= |src| && src[|src| - |s.rest|..] == s.rest
    decreases |s.data| - n
  {
    hide NumBits, BytesBits;
    SegmentHead(s, n);
    if n < |s.data| {
      var q := if s.data[n] == 255 then p + 2 else p + 1;
      HeadInSource(src, p, s, n);
      assert src[q..] == Coming(s, n + 1);
      SegmentInSource(src, q, s, n + 1);
      FirstByte(s.data[n..]);
      assert s.data[n..][1..] == s.data[n + 1..];
      Concat3(NumBits(s.data[n], 8), BytesBits(s.data[n + 1..]), [false]);
    } else {
      HeadInSource(src, p, s, n);
      NoBytes();
      assert s.data[n..] == [];
      assert src[p + 2..] == s.rest;
    }
  }

  lemma HeadInSource(src: seq<byte>, p: nat, s: Segment, n: nat)
    requires p <= |src| && n <= |s.data| && IsMarker(s.marker) && src[p..] == Coming(s, n)
    ensures n < |s.data| ==> p + (if s.data[n] == 255 then 2 else 1) <= |src|
    ensures n < |s.data| ==> HeadAt(src, |src|, p) == Data(s.data[n], p + if s.data[n] == 255 then 2 else 1)
    ensures n < |s.data| ==> src[p + (if s.data[n] == 255 then 2 else 1)..] == Coming(s, n + 1)
    ensures n == |s.data| ==>
            p + 2 <= |src| && HeadAt(src, |src|, p) == Marker(s.marker, p + 2) && src[p + 2..] == s.rest
  {
    SegmentHead(s, n);
    var c := Coming(s, n);
    assert src[p] == c[0];
    if n < |s.data| {
      assert Coming(s, n) == Stuff1(s.data[n]) + Coming(s, n + 1) by {
        assert s.data[n..][1..] == s.data[n + 1..];
      }
      if s.data[n] == 255 {
        assert src[p + 1] == c[1];
        SkipStep(src, |src|, p);
        SkipStep(src, |src|, p + 1);
      }
    } else {
      assert s.data[n..] == [];
      assert c == [255, s.marker] + s.rest;
      assert src[p + 1] == c[1];
      SkipStep(src, |src|, p);
      SkipStep(src, |src|, p + 1);
    }
  }

  lemma NoBytes()
    ensures BytesBits([]) == [] && [] + [false] == [false]
  {
  }

  lemma LastByte(d: seq<byte>)
    requires d != []
    ensures BytesBits(d) == BytesBits(d[..|d| - 1]) + NumBits(d[|d| - 1], 8)
  {
    hide NumBits;
  }

  /** The bits of bytes start with those of the first byte. */
  lemma {:induction false} FirstByte(d: seq<byte>)
    requires d != []
    ensures BytesBits(d) == NumBits(d[0], 8) + BytesBits(d[1..])
    decreases |d|
  {
    hide NumBits, BytesBits;
    var n := |d| - 1;
    LastByte(d);
    NoBytes();
    if n > 0 {
      FirstByte(d[..n]);
      LastByte(d[1..]);
      assert d[..n][1..] == d[1..][..n - 1];
      Concat3(NumBits(d[0], 8), BytesBits(d[1..][..n - 1]), NumBits(d[n], 8));
    } else {
      assert d[..0] == [] && d[1..] == [];
      assert [] + NumBits(d[0], 8) == NumBits(d[0], 8) + [];
    }
  }

  /** At the start of a coded segment a decoder without prediction stands before all its MCUs. */
  lemma SegmentStands(sc: Scan, ts: Tables, limits: seq<nat>, mcus: Mcus, data: seq<byte>) returns (tail: seq<bool>)
    requires IsScan(sc) && AreLimits(sc, limits) && HuffEncoder.Coded(sc, ts, mcus, data)
    ensures tail != []
    ensures Stands(sc, ts, limits, NoPred(), DecState(NoPred(), 0, BytesBits(data) + [false]), mcus, tail)
  {
    hide BitsFrom, Covered, IsOrder, SegmentOps, BytesBits, BitsOf, Plan, FirstSegment, RefineSegment, DcSegment;
    var ops := SegmentOps(sc, NoCarry(), mcus);
    var k: nat :| k < 8 && BytesBits(data) == BitsOf(ts, SegPlan(sc, mcus)) + Ones(k);
    tail := Ones(k) + [false];
    Concat3(BitsOf(ts, SegPlan(sc, mcus)), Ones(k), [false]);
    PlanBits(ts, [], ops, tail);
    NothingSaid(ts, BitsFrom(ts, ops, tail));
    SegmentOpsAre(sc, mcus);
    assert Bands(sc, mcus)[0..] == Bands(sc, mcus) && Bands(sc, mcus)[..0] == [];
    NoCorr(sc, Bands(sc, mcus));
  }

  lemma NothingSaid(ts: Tables, s: seq<bool>)
    ensures BitsOf(ts, []) + s == s
  {
  }

  lemma NoCorr(sc: Scan, bands: seq<Zz>)
    ensures AllCorr(sc.ss, []) == [] && forall next :: CorrOps([], next) == next
  {
  }

  lemma SegmentOpsAre(sc: Scan, mcus: Mcus)
    requires IsScan(sc) && AreMcus(sc, mcus)
    ensures SegmentOps(sc, NoCarry(), mcus) ==
            match ModeOf(sc)
            case AcFirst => FirstSegment(sc.comps[0].acTbl, sc.ss, Bands(sc, mcus), 0)
            case AcRefine => RefineSegment(sc.comps[0].acTbl, sc.ss, Bands(sc, mcus), 0, [])
            case _ => DcSegment(sc, NoPred(), mcus)
  {
  }
}
