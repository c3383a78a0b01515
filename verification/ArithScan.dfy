// A whole sequential scan through the arithmetic coder: MCUs, restart intervals, DC prediction and
// conditioning, from coefficients to bytes and back.
module ArithScan {
  import opened Powers
  import opened Coefs
  import opened Digits
  import opened Segments
  import opened ArithTable
  import opened ArithInterval
  import opened ArithBlock
  import opened ArithEncoder
  import opened ArithDecoder
  import opened ArithBlockCoder

  /** What a scan's header and tables fix: components, the block layout of an MCU, the last
      coefficient coded, the zigzag order, the conditioning parameters and the restart interval. */
  datatype Scan = Scan(comps: seq<Component>, membership: seq<nat>, limSe: nat, order: seq<nat>,
                       dcL: seq<nat>, dcU: seq<nat>, acK: seq<nat>, restartInterval: nat)

  ghost predicate IsScan(sc: Scan) {
    && |sc.comps| <= MAX_COMPS_IN_SCAN
    && (forall i :: 0 <= i < |sc.comps| ==>
          sc.comps[i].dcTbl < NUM_ARITH_TBLS && sc.comps[i].acTbl < NUM_ARITH_TBLS)
    && (forall i :: 0 <= i < |sc.membership| ==> sc.membership[i] < |sc.comps|)
    && sc.limSe < 64 && IsOrder(sc.order)
    && |sc.dcL| == |sc.dcU| == |sc.acK| == NUM_ARITH_TBLS
  }

  // Last DC value and conditioning context of each component.
  datatype Pred = Pred(lastDc: seq<int>, ctx: seq<nat>)

  ghost predicate IsPred(p: Pred) {
    && |p.lastDc| == |p.ctx| == MAX_COMPS_IN_SCAN
    && (forall i :: 0 <= i < MAX_COMPS_IN_SCAN ==> p.ctx[i] <= 16)
  }

  const ZERO_PRED := Pred([0, 0, 0, 0], [0, 0, 0, 0])

  function Zigzag(b: Block, sc: Scan): (zz: seq<JCOEF>)
    requires IsScan(sc)
    ensures |zz| == sc.limSe + 1
  {
    seq(sc.limSe + 1, i requires 0 <= i <= sc.limSe => b[sc.order[i]])
  }

  function NextPred(sc: Scan, p: Pred, i: nat, b: Block): (r: Pred)
    requires IsScan(sc) && IsPred(p) && i < |sc.membership|
    ensures IsPred(r)
  {
    var ci := sc.membership[i];
    var tbl := sc.comps[ci].dcTbl;
    Pred(p.lastDc[ci := b[0]], p.ctx[ci := NextContext(b[0] - p.lastDc[ci], sc.dcL[tbl], sc.dcU[tbl])])
  }

  /** The decisions that code the i-th block of an MCU. */
  ghost function BlockTrace(sc: Scan, p: Pred, i: nat, b: Block, next: Trace): Trace
    requires IsScan(sc) && IsPred(p) && i < |sc.membership|
  {
    var ci := sc.membership[i];
    DcTrace(sc.comps[ci].dcTbl, p.ctx[ci], b[0] - p.lastDc[ci],
            if sc.limSe == 0 then next
            else AcTrace(sc.comps[ci].acTbl, sc.acK[sc.comps[ci].acTbl], Zigzag(b, sc), 0, next))
  }

  /** The decisions that code blocks i, i+1, ... of an MCU. */
  ghost function McuTrace(sc: Scan, p: Pred, mcu: seq<Block>, i: nat, next: Trace): Trace
    requires IsScan(sc) && IsPred(p) && |mcu| == |sc.membership| && i <= |mcu|
    decreases |mcu| - i
  {
    if i == |mcu| then next
    else BlockTrace(sc, p, i, mcu[i], McuTrace(sc, NextPred(sc, p, i, mcu[i]), mcu, i + 1, next))
  }

  /** The prediction state after blocks i, i+1, ... of an MCU. */
  function McuPred(sc: Scan, p: Pred, mcu: seq<Block>, i: nat): (r: Pred)
    requires IsScan(sc) && IsPred(p) && |mcu| == |sc.membership| && i <= |mcu|
    ensures IsPred(r)
    decreases |mcu| - i
  {
    if i == |mcu| then p else McuPred(sc, NextPred(sc, p, i, mcu[i]), mcu, i + 1)
  }

  ghost predicate AreMcus(sc: Scan, mcus: seq<seq<Block>>) {
    forall i :: 0 <= i < |mcus| ==> |mcus[i]| == |sc.membership|
  }

  /** The decisions of one segment: its MCUs in order. */
  ghost function SegmentTrace(sc: Scan, p: Pred, mcus: seq<seq<Block>>, next: Trace): Trace
    requires IsScan(sc) && IsPred(p) && AreMcus(sc, mcus)
    decreases |mcus|
  {
    if mcus == [] then next
    else McuTrace(sc, p, mcus[0], 0, SegmentTrace(sc, McuPred(sc, p, mcus[0], 0), mcus[1..], next))
  }

  function SegmentPred(sc: Scan, p: Pred, mcus: seq<seq<Block>>): (r: Pred)
    requires IsScan(sc) && IsPred(p) && AreMcus(sc, mcus)
    ensures IsPred(r)
    decreases |mcus|
  {
    if mcus == [] then p else SegmentPred(sc, McuPred(sc, p, mcus[0], 0), mcus[1..])
  }

  /** Coding one more MCU extends the trace of a segment at its end. */
  lemma {:induction false} SegmentAppend(sc: Scan, p: Pred, mcus: seq<seq<Block>>, mcu: seq<Block>, next: Trace)
    requires IsScan(sc) && IsPred(p) && AreMcus(sc, mcus) && |mcu| == |sc.membership|
    ensures AreMcus(sc, mcus + [mcu])
    ensures SegmentTrace(sc, p, mcus + [mcu], next) ==
            SegmentTrace(sc, p, mcus, McuTrace(sc, SegmentPred(sc, p, mcus), mcu, 0, next))
    ensures SegmentPred(sc, p, mcus + [mcu]) == McuPred(sc, SegmentPred(sc, p, mcus), mcu, 0)
    decreases |mcus|
  {
    if mcus == [] {
      assert mcus + [mcu] == [mcu];
      assert [mcu][1..] == [];
    } else {
      SegmentAppend(sc, McuPred(sc, p, mcus[0], 0), mcus[1..], mcu, next);
      assert (mcus + [mcu])[1..] == mcus[1..] + [mcu];
    }
  }

  // ----- statistics at the start of a segment

  function InitStats(): (r: seq<state>)
    ensures |r| == ALL_BINS
  {
    seq(ALL_BINS, i => if i == FIXED_BIN then State(false, FIXED_STATE) else ZERO_STATE)
  }

  /** The fixed-probability entry leads only to itself. */
  ghost predicate HasFixedEntry(t: Table) {
    t[FIXED_STATE].nextLps == FIXED_STATE && t[FIXED_STATE].nextMps == FIXED_STATE && t[FIXED_STATE].switch == 0
  }

  lemma AritabHasFixedEntry()
    ensures HasFixedEntry(ARITAB)
  {
    assert ARITAB[FIXED_STATE] == ROWS_112[1];
  }

  lemma {:induction false} FixedBinStays(t: Table, start: seq<state>, ds: seq<Decision>)
    requires HasFixedEntry(t) && InRange(start, ds)
    requires |start| == ALL_BINS && start[FIXED_BIN] == State(false, FIXED_STATE)
    ensures Run(t, start, ds).stats[FIXED_BIN] == State(false, FIXED_STATE)
  {
    if ds != [] {
      FixedBinStays(t, start, ds[..|ds| - 1]);
    }
  }

  lemma {:induction false} McuAppend(sc: Scan, p: Pred, mcu: seq<Block>, i: nat, t: Trace, next: Trace)
    requires IsScan(sc) && IsPred(p) && |mcu| == |sc.membership| && i <= |mcu|
    ensures McuTrace(sc, p, mcu, i, Append(t, next)) == Append(McuTrace(sc, p, mcu, i, t), next)
    decreases |mcu| - i
  {
    hide DcTrace, AcTrace, Append;
    if i < |mcu| {
      var ci := sc.membership[i];
      var p' := NextPred(sc, p, i, mcu[i]);
      McuAppend(sc, p', mcu, i + 1, t, next);
      var tail := McuTrace(sc, p', mcu, i + 1, t);
      var tbl := sc.comps[ci].acTbl;
      if sc.limSe == 0 {
        DcAppend(sc.comps[ci].dcTbl, p.ctx[ci], mcu[i][0] - p.lastDc[ci], tail, next);
      } else {
        AcAppend(tbl, sc.acK[tbl], Zigzag(mcu[i], sc), 0, tail, next);
        DcAppend(sc.comps[ci].dcTbl, p.ctx[ci], mcu[i][0] - p.lastDc[ci],
                 AcTrace(tbl, sc.acK[tbl], Zigzag(mcu[i], sc), 0, tail), next);
      }
    }
  }

  lemma {:induction false} SegmentNext(sc: Scan, p: Pred, mcus: seq<seq<Block>>, next: Trace)
    requires IsScan(sc) && IsPred(p) && AreMcus(sc, mcus)
    ensures SegmentTrace(sc, p, mcus, next) == Append(SegmentTrace(sc, p, mcus, Done), next)
    decreases |mcus|
  {
    if mcus != [] {
      var p' := McuPred(sc, p, mcus[0], 0);
      SegmentNext(sc, p', mcus[1..], next);
      McuAppend(sc, p, mcus[0], 0, SegmentTrace(sc, p', mcus[1..], Done), next);
    }
  }

  /** The decisions of a segment that starts with no prediction. */
  ghost function SegmentPlan(sc: Scan, mcus: seq<seq<Block>>): seq<Decision>
    requires IsScan(sc) && AreMcus(sc, mcus)
  {
    Plan([], SegmentTrace(sc, ZERO_PRED, mcus, Done))
  }

  lemma EmptyPlan(sc: Scan)
    requires IsScan(sc)
    ensures SegmentPlan(sc, []) == []
  {
  }

  lemma PlanOneMore(sc: Scan, mcus: seq<seq<Block>>, mcu: seq<Block>)
    requires IsScan(sc) && AreMcus(sc, mcus) && |mcu| == |sc.membership|
    ensures AreMcus(sc, mcus + [mcu])
    ensures SegmentPlan(sc, mcus + [mcu]) ==
            Plan(SegmentPlan(sc, mcus), McuTrace(sc, SegmentPred(sc, ZERO_PRED, mcus), mcu, 0, Done))
  {
    var m := McuTrace(sc, SegmentPred(sc, ZERO_PRED, mcus), mcu, 0, Done);
    SegmentAppend(sc, ZERO_PRED, mcus, mcu, Done);
    SegmentNext(sc, ZERO_PRED, mcus, m);
    PlanAppend([], SegmentTrace(sc, ZERO_PRED, mcus, Done), m);
  }

  /** data is a code value for the MCUs of one segment, coded from the initial statistics. */
  ghost predicate Codes(sc: Scan, t: Table, mcus: seq<seq<Block>>, data: seq<byte>) {
    && IsScan(sc) && AreMcus(sc, mcus)
    && InRange(InitStats(), SegmentPlan(sc, mcus))
    && Inside(Run(t, InitStats(), SegmentPlan(sc, mcus)).iv, data)
  }

  lemma WireAppend(datas: seq<seq<byte>>, data: seq<byte>, out: seq<byte>)
    requires Extends(out, Wire(datas), data)
    ensures out + [0xFF] + [Rst(|datas|)] == Wire(datas + [data])
  {
    hide Wire, Stuff;
    WireSnoc(datas, data);
    JoinWire(out, Wire(datas), Stuff(data), Rst(|datas|));
  }

  lemma PlanDone(hist: seq<Decision>)
    ensures Plan(hist, Done) == hist
  {
  }

  ghost predicate InCoefRange(vs: seq<int>) {
    forall i :: 0 <= i < |vs| ==> -0x8000 <= vs[i] < 0x8000
  }

  lemma FixedBinNow(coder: ArithEncoder)
    requires Ready(coder) && coder.start == InitStats() && HasFixedEntry(coder.table)
    ensures coder.stats[FIXED_BIN] == State(false, FIXED_STATE)
  {
    FixedBinStays(coder.table, coder.start, coder.hist);
    assert coder.stats[FIXED_BIN] == coder.stats[..][FIXED_BIN];
  }

  /** Clear the statistics, but for the bin whose probability is fixed. */
  method ResetStats(stats: array<state>)
    requires stats.Length == ALL_BINS
    modifies stats
    ensures old(stats[FIXED_BIN]) == State(false, FIXED_STATE) ==> stats[..] == InitStats()
  {
    forall i | 0 <= i < stats.Length && i != FIXED_BIN {
      stats[i] := ZERO_STATE;
    }
  }

  class ScanEncoder {
    const sc: Scan
    const coder: ArithEncoder

    var lastDc: seq<int>
    var dcContext: seq<nat>
    var restartsToGo: nat
    var nextRestartNum: nat

    // The MCUs of finished segments, the data bytes written for them, and the current segment.
    ghost var segs: seq<seq<seq<Block>>>
    ghost var datas: seq<seq<byte>>
    ghost var cur: seq<seq<Block>>

    ghost predicate Tracking()
      reads this
    {
      && IsScan(sc) && AreMcus(sc, cur)
      && Pred(lastDc, dcContext) == SegmentPred(sc, ZERO_PRED, cur)
      && |datas| == |segs| && nextRestartNum == |segs| % 8 && InCoefRange(lastDc)
      && (if sc.restartInterval == 0 then segs == []
          else restartsToGo + |cur| == sc.restartInterval &&
               forall j :: 0 <= j < |segs| ==> |segs[j]| == sc.restartInterval)
    }

    ghost predicate Coding()
      reads this, coder, coder.stats
    {
      && Ready(coder) && HasFixedEntry(coder.table)
      && coder.start == InitStats() && coder.before == Wire(datas) && |datas| == |segs|
      && (forall j :: 0 <= j < |segs| ==> Codes(sc, coder.table, segs[j], datas[j]) && NoTrailingZero(datas[j]))
    }

    ghost predicate Valid()
      reads this, coder, coder.stats
    {
      Tracking() && Coding() && coder.hist == SegmentPlan(sc, cur)
    }

    /** start_pass: fresh statistics, predictions and registers. */
    constructor (scan: Scan, t: Table)
      requires IsScan(scan) && HasFixedEntry(t)
      ensures Valid() && fresh(coder) && fresh(coder.stats) && sc == scan && coder.table == t
      ensures segs == [] && cur == [] && coder.out == []
    {
      sc := scan;
      coder := new ArithEncoder(InitStats(), t);
      lastDc, dcContext := [0, 0, 0, 0], [0, 0, 0, 0];
      restartsToGo, nextRestartNum := scan.restartInterval, 0;
      segs, datas, cur := [], [], [];
    }

    /** Bytes whose value is inside the final interval are a code value of the segment. */
    lemma CodesWhenInside()
      requires Valid()
      ensures Ready(coder) && InRange(coder.start, coder.hist)
      ensures forall d :: Inside(Run(coder.table, coder.start, coder.hist).iv, d) ==> Codes(sc, coder.table, cur, d)
    {
      hide Inside, Run, SegmentPlan;
    }

    /** Finish the segment, write a restart marker and start over with fresh statistics. */
    method EmitRestart()
      requires Valid() && restartsToGo == 0
      requires sc.restartInterval > 0
      modifies this, coder, coder.stats
      ensures Coding() && coder.hist == []
      ensures lastDc == [0, 0, 0, 0] && dcContext == [0, 0, 0, 0]
      ensures segs == old(segs) + [old(cur)] && cur == [] && |datas| == |segs|
      ensures restartsToGo == old(restartsToGo) && nextRestartNum == old(nextRestartNum)
    {
      hide Stuff, Wire, SegmentPlan, IsScan, Codes, Extends, Inside, Run, InRange, NoTrailingZero, ArithEncoder.Valid;
      FixedBinNow(coder);
      CodesWhenInside();
      coder.FinishPass();
      WireAppend(datas, coder.emitted, coder.out);
      coder.EmitByte(0xFF);
      coder.EmitByte(0xD0 + nextRestartNum);
      segs, datas, cur := segs + [cur], datas + [coder.emitted], [];
      ResetStats(coder.stats);
      lastDc, dcContext := [0, 0, 0, 0], [0, 0, 0, 0];
      coder.Restart();
    }

    /** The blocks of one MCU, each component with its own prediction and conditioning. */
    method EncodeBlocks(mcu: seq<Block>)
      requires IsScan(sc) && Ready(coder) && |mcu| == |sc.membership|
      requires IsPred(Pred(lastDc, dcContext)) && InCoefRange(lastDc)
      modifies this`lastDc, this`dcContext, coder, coder.stats
      ensures Ready(coder) && coder.before == old(coder.before) && coder.start == old(coder.start)
      ensures coder.hist == old(Plan(coder.hist, McuTrace(sc, Pred(lastDc, dcContext), mcu, 0, Done)))
      ensures Pred(lastDc, dcContext) == old(McuPred(sc, Pred(lastDc, dcContext), mcu, 0)) && InCoefRange(lastDc)
    {
      hide Ready, Plan, DcTrace, AcTrace, NextContext, IsOrder, Zigzag;
      ghost var p0 := Pred(lastDc, dcContext);
      ghost var goal := Plan(coder.hist, McuTrace(sc, p0, mcu, 0, Done));
      for blkn := 0 to |sc.membership|
        invariant Ready(coder) && coder.before == old(coder.before) && coder.start == old(coder.start)
        invariant IsPred(Pred(lastDc, dcContext))
        invariant InCoefRange(lastDc)
        invariant McuPred(sc, Pred(lastDc, dcContext), mcu, blkn) == McuPred(sc, p0, mcu, 0)
        invariant Plan(coder.hist, McuTrace(sc, Pred(lastDc, dcContext), mcu, blkn, Done)) == goal
      {
        ghost var p := Pred(lastDc, dcContext);
        var block := mcu[blkn];
        var ci := sc.membership[blkn];
        var comp := sc.comps[ci];
        var tbl := comp.dcTbl;
        ghost var tail := McuTrace(sc, NextPred(sc, p, blkn, block), mcu, blkn + 1, Done);
        ghost var acs := if sc.limSe == 0 then tail
                         else AcTrace(comp.acTbl, sc.acK[comp.acTbl], Zigzag(block, sc), 0, tail);
        var ctx := PutDc(coder, tbl, dcContext[ci], block[0] - lastDc[ci], sc.dcL[tbl], sc.dcU[tbl], acs);
        lastDc := lastDc[ci := block[0]];
        dcContext := dcContext[ci := ctx];
        if sc.limSe != 0 {
          PutAc(coder, comp.acTbl, sc.acK[comp.acTbl], Zigzag(block, sc), tail);
        }
      }
      PlanDone(coder.hist);
    }

    /** Encode one MCU, preceded by a restart marker when the interval is used up. */
    method EncodeMcu(mcu: seq<Block>)
      requires Valid() && |mcu| == |sc.membership|
      modifies this, coder, coder.stats
      ensures Valid()
      ensures if sc.restartInterval != 0 && old(restartsToGo) == 0
              then segs == old(segs) + [old(cur)] && cur == [mcu]
              else segs == old(segs) && cur == old(cur) + [mcu]
    {
      hide Ready, SegmentPlan, Codes, Wire, IsOrder, McuTrace, McuPred, Plan;
      if sc.restartInterval != 0 {
        if restartsToGo == 0 {
          EmitRestart();
          EmptyPlan(sc);
          restartsToGo := sc.restartInterval;
          nextRestartNum := (nextRestartNum + 1) % 8;
        }
        restartsToGo := restartsToGo - 1;
      }
      PlanOneMore(sc, cur, mcu);
      SegmentAppend(sc, ZERO_PRED, cur, mcu, Done);
      EncodeBlocks(mcu);
      cur := cur + [mcu];
    }

    /** Finish the scan: what is on the wire is every segment's code value, stuffed. */
    method FinishPass()
      requires Valid()
      modifies coder
      ensures coder.out == Wire(datas) + Stuff(coder.emitted)
      ensures Codes(sc, coder.table, cur, coder.emitted) && NoTrailingZero(coder.emitted)
    {
      hide Stuff, Wire, SegmentPlan, IsScan;
      coder.FinishPass();
      assert coder.out == coder.out[..|coder.before|] + coder.out[|coder.before|..];
    }
  }

  // ----- decoding

  /** Every DC difference of the MCU has a magnitude the magnitude coder can express. */
  ghost predicate DcFits(sc: Scan, p: Pred, mcu: seq<Block>, i: nat)
    requires IsScan(sc) && IsPred(p) && |mcu| == |sc.membership| && i <= |mcu|
    decreases |mcu| - i
  {
    i < |mcu| ==>
      Abs(mcu[i][0] - p.lastDc[sc.membership[i]]) <= 0x8000 && DcFits(sc, NextPred(sc, p, i, mcu[i]), mcu, i + 1)
  }

  /** The coded positions of a block hold the coefficients of b. */
  ghost predicate Matches(sc: Scan, block: array<JCOEF>, b: Block)
    requires IsScan(sc) && block.Length == 64
    reads block
  {
    forall k :: 0 <= k <= sc.limSe ==> block[sc.order[k]] == b[sc.order[k]]
  }

  lemma MatchesFromFilled(sc: Scan, block: array<JCOEF>, b: Block)
    requires IsScan(sc) && block.Length == 64 && block[0] == b[0]
    requires Filled(block, sc.order, Zigzag(b, sc), sc.limSe)
    ensures Matches(sc, block, b)
  {
    forall k | 0 <= k <= sc.limSe
      ensures block[sc.order[k]] == b[sc.order[k]]
    {
      assert b[sc.order[k]] == Zigzag(b, sc)[k];
    }
  }

  lemma AliveFacts(d: ArithDecoder)
    requires Alive(d)
    ensures d.pos <= |d.src| && d.stats.Length == ALL_BINS && d.ct != -1
  {
  }

  lemma GaveUpFacts(d: ArithDecoder, s: Segment)
    requires GaveUp(d, s)
    ensures d.pos <= |d.src| && d.stats.Length == ALL_BINS && d.ct == -1 && d.Feeds(s) && Consistent(d)
  {
  }

  lemma AliveIsConsistent(d: ArithDecoder)
    requires Alive(d)
    ensures Consistent(d)
  {
    hide Run, InRange;
  }

  lemma FixedStays(d: ArithDecoder)
    requires Consistent(d) && d.start == InitStats() && HasFixedEntry(d.table)
    ensures d.stats[FIXED_BIN] == State(false, FIXED_STATE)
  {
    FixedBinStays(d.table, d.start, d.hist);
    assert d.stats[FIXED_BIN] == d.stats[..][FIXED_BIN];
  }

  class ScanDecoder {
    const sc: Scan
    const coder: ArithDecoder

    var lastDc: seq<int>
    var dcContext: seq<nat>
    var restartsToGo: nat
    var nextRestartNum: nat

    ghost predicate Valid()
      reads this, coder, coder.stats
    {
      && IsScan(sc) && HasFixedEntry(coder.table) && IsPred(Pred(lastDc, dcContext)) && nextRestartNum < 8
      && coder.pos <= |coder.src| && coder.stats.Length == ALL_BINS
      && (coder.ct == -1 || Alive(coder))
    }

    /** Decode one block into a zeroed area. */
    method DecodeBlock(blkn: nat, block: array<JCOEF>, ghost seg: Segment, ghost b: Block, ghost next: Trace)
      returns (status: Status)
      requires IsScan(sc) && IsPred(Pred(lastDc, dcContext)) && Alive(coder)
      requires blkn < |sc.membership| && block.Length == 64
      modifies this`lastDc, this`dcContext, coder, coder.stats, block
      ensures coder.start == old(coder.start) && IsPred(Pred(lastDc, dcContext))
      ensures status.Good? ==> Alive(coder)
      ensures old(Follows(coder, seg, BlockTrace(sc, Pred(lastDc, dcContext), blkn, b, next))) && old(IsZero(block)) ==>
                if Abs(b[0] - old(lastDc)[sc.membership[blkn]]) <= 0x8000 then
                  && status.Good? && Follows(coder, seg, next) && Matches(sc, block, b)
                  && Pred(lastDc, dcContext) == NextPred(sc, old(Pred(lastDc, dcContext)), blkn, b)
                else status.BadCode? && GaveUp(coder, seg)
    {
      hide Alive, Follows, GaveUp, DcTrace, AcTrace, NextContext, IsOrder, Zigzag, Filled, Matches;
      ghost var p := Pred(lastDc, dcContext);
      var ci := sc.membership[blkn];
      var comp := sc.comps[ci];
      var tbl := comp.dcTbl;
      ghost var zz := Zigzag(b, sc);
      ghost var good := && Follows(coder, seg, BlockTrace(sc, p, blkn, b, next)) && IsZero(block)
                        && Abs(b[0] - lastDc[ci]) <= 0x8000;
      ghost var acs := if sc.limSe == 0 then next else AcTrace(comp.acTbl, sc.acK[comp.acTbl], zz, 0, next);
      var diff, ctx;
      status, diff, ctx := GetDc(coder, tbl, dcContext[ci], sc.dcL[tbl], sc.dcU[tbl], seg, b[0] - lastDc[ci], acs);
      if !status.Good? {
        return;
      }
      dcContext := dcContext[ci := ctx];
      lastDc := lastDc[ci := lastDc[ci] + diff];
      block[0] := ToCoef(lastDc[ci]);
      assert good ==> block[0] == b[0];
      if good {
        FilledFromZero(block, sc.order, zz);
      }
      if sc.limSe != 0 {
        status := GetAc(coder, comp.acTbl, sc.acK[comp.acTbl], sc.limSe, sc.order, block, seg, zz, next);
      }
      if good {
        MatchesFromFilled(sc, block, b);
      }
    }

    /** Decode the blocks of one MCU into zeroed areas. */
    method DecodeBlocks(blocks: seq<array<JCOEF>>, ghost seg: Segment, ghost mcu: seq<Block>, ghost next: Trace)
      returns (status: Status)
      requires IsScan(sc) && IsPred(Pred(lastDc, dcContext)) && Alive(coder)
      requires AreBlocks(blocks) && |blocks| == |sc.membership| == |mcu|
      modifies this`lastDc, this`dcContext, coder, coder.stats, blocks
      ensures coder.start == old(coder.start) && IsPred(Pred(lastDc, dcContext))
      ensures status.Good? ==> Alive(coder)
      ensures old(Follows(coder, seg, McuTrace(sc, Pred(lastDc, dcContext), mcu, 0, next))) &&
              old(forall i :: 0 <= i < |blocks| ==> IsZero(blocks[i])) ==>
                if old(DcFits(sc, Pred(lastDc, dcContext), mcu, 0)) then
                  && status.Good? && Follows(coder, seg, next)
                  && Pred(lastDc, dcContext) == old(McuPred(sc, Pred(lastDc, dcContext), mcu, 0))
                  && forall i :: 0 <= i < |blocks| ==> Matches(sc, blocks[i], mcu[i])
                else status.BadCode? && GaveUp(coder, seg)
    {
      hide Alive, Follows, GaveUp, BlockTrace, IsOrder, Matches, IsZero, NextPred;
      ghost var p0 := Pred(lastDc, dcContext);
      ghost var good := && Follows(coder, seg, McuTrace(sc, p0, mcu, 0, next))
                        && forall i :: 0 <= i < |blocks| ==> IsZero(blocks[i]);
      for blkn := 0 to |sc.membership|
        invariant Alive(coder) && IsPred(Pred(lastDc, dcContext)) && coder.start == old(coder.start)
        invariant good ==>
                    && McuPred(sc, Pred(lastDc, dcContext), mcu, blkn) == McuPred(sc, p0, mcu, 0)
                    && DcFits(sc, Pred(lastDc, dcContext), mcu, blkn) == DcFits(sc, p0, mcu, 0)
                    && Follows(coder, seg, McuTrace(sc, Pred(lastDc, dcContext), mcu, blkn, next))
        invariant good ==> forall i :: 0 <= i < blkn ==> Matches(sc, blocks[i], mcu[i])
        invariant good ==> forall i :: blkn <= i < |blocks| ==> IsZero(blocks[i])
      {
        ghost var p := Pred(lastDc, dcContext);
        ghost var tail := McuTrace(sc, NextPred(sc, p, blkn, mcu[blkn]), mcu, blkn + 1, next);
        status := DecodeBlock(blkn, blocks[blkn], seg, mcu[blkn], tail);
        if !status.Good? {
          return;
        }
      }
      status := Good;
    }

    /** start_pass: fresh statistics and predictions; the first decision fetches two bytes. */
    constructor (scan: Scan, t: Table, bytes: seq<byte>)
      requires IsScan(scan) && HasFixedEntry(t)
      ensures Alive(coder) && fresh(coder) && fresh(coder.stats) && coder.src == bytes && coder.table == t
      ensures sc == scan && coder.start == InitStats() && coder.hist == [] && coder.got == []
      ensures coder.pos == 0 && coder.unreadMarker == 0
      ensures Pred(lastDc, dcContext) == ZERO_PRED
      ensures restartsToGo == sc.restartInterval && nextRestartNum == 0
    {
      sc := scan;
      coder := new ArithDecoder(bytes, InitStats(), t);
      lastDc, dcContext := [0, 0, 0, 0], [0, 0, 0, 0];
      restartsToGo, nextRestartNum := scan.restartInterval, 0;
    }

    /** Advance past the expected restart marker and start over with fresh statistics. */
    method ProcessRestart(ghost prev: Segment, ghost seg: Segment, ghost mcus: seq<seq<Block>>) returns (ok: bool)
      requires IsScan(sc) && HasFixedEntry(coder.table) && nextRestartNum < 8
      requires coder.pos <= |coder.src| && coder.stats.Length == ALL_BINS
      modifies this, coder, coder.stats
      ensures ok ==> Alive(coder)
      ensures ok && old(coder.stats[FIXED_BIN]) == State(false, FIXED_STATE) ==> coder.start == InitStats()
      ensures ok ==> Pred(lastDc, dcContext) == ZERO_PRED && restartsToGo == sc.restartInterval
      ensures ok ==> nextRestartNum == (old(nextRestartNum) + 1) % 8
      ensures old(coder.Feeds(prev)) && prev.marker == Rst(old(nextRestartNum)) && IsMarker(seg.marker) &&
              old(coder.stats[FIXED_BIN]) == State(false, FIXED_STATE) &&
              prev.rest == Coming(seg, 0) && Codes(sc, coder.table, mcus, seg.data) ==>
                ok && Follows(coder, seg, SegmentTrace(sc, ZERO_PRED, mcus, Done))
    {
      hide SegmentTrace, Plan, Flat, IsOrder;
      ok := coder.ReadRestartMarker(nextRestartNum, prev, |coder.got|);
      if !ok {
        return;
      }
      nextRestartNum := (nextRestartNum + 1) % 8;
      ResetStats(coder.stats);
      lastDc, dcContext := [0, 0, 0, 0], [0, 0, 0, 0];
      coder.Restart();
      restartsToGo := sc.restartInterval;
      if IsScan(sc) && AreMcus(sc, mcus) {
        PlanIsFlat([], SegmentTrace(sc, ZERO_PRED, mcus, Done));
      }
    }

    /** Is a restart marker due before the next MCU? */
    predicate Due()
      reads this`restartsToGo
    {
      sc.restartInterval != 0 && restartsToGo == 0
    }

    /** The prediction state the next MCU is decoded with. */
    function StartPred(): Pred
      reads this
    {
      if Due() then ZERO_PRED else Pred(lastDc, dcContext)
    }

    /** The source codes the MCUs mcus next, in segment seg; if a restart is due, seg follows the
        restart marker that ends segment prev. */
    ghost predicate Before(prev: Segment, seg: Segment, mcus: seq<seq<Block>>)
      reads this, coder, coder.stats
    {
      && AreMcus(sc, mcus) && IsMarker(seg.marker)
      && Valid() && coder.start == InitStats()
      && if Due() then
           && Consistent(coder) && coder.Feeds(prev)
           && prev.marker == Rst(nextRestartNum) && prev.rest == Coming(seg, 0)
           && Codes(sc, coder.table, mcus, seg.data)
         else Alive(coder) && Follows(coder, seg, SegmentTrace(sc, Pred(lastDc, dcContext), mcus, Done))
    }

    /** Decode one MCU, after processing a restart marker when one is due. A DC difference the magnitude decoder
        cannot express ends in the error state, in which nothing is decoded before the next restart. */
    method DecodeMcu(blocks: seq<array<JCOEF>>, ghost prev: Segment, ghost seg: Segment, ghost mcus: seq<seq<Block>>)
      returns (status: Status)
      requires Valid() && AreBlocks(blocks) && |blocks| == |sc.membership|
      modifies this, coder, coder.stats, blocks
      ensures old(Before(prev, seg, mcus)) && mcus != [] &&
              old(forall i :: 0 <= i < |blocks| ==> IsZero(blocks[i])) ==>
                && Valid() && coder.start == InitStats()
                && restartsToGo == NextToGo(sc.restartInterval, old(restartsToGo))
                && nextRestartNum == (if old(Due()) then (old(nextRestartNum) + 1) % 8 else old(nextRestartNum))
                && if old(DcFits(sc, StartPred(), mcus[0], 0)) then
                     && status.Good? && Alive(coder)
                     && Follows(coder, seg, SegmentTrace(sc, Pred(lastDc, dcContext), mcus[1..], Done))
                     && Pred(lastDc, dcContext) == McuPred(sc, old(StartPred()), mcus[0], 0)
                     && forall i :: 0 <= i < |blocks| ==> Matches(sc, blocks[i], mcus[0][i])
                   else status.BadCode? && GaveUp(coder, seg)
      ensures old(coder.ct) == -1 && !old(Due()) ==>
                && status.BadCode? && unchanged(coder) && unchanged(coder.stats)
                && lastDc == old(lastDc) && dcContext == old(dcContext) && nextRestartNum == old(nextRestartNum)
                && restartsToGo == NextToGo(sc.restartInterval, old(restartsToGo))
    {
      hide Follows, Alive, GaveUp, Consistent, IsOrder, McuTrace, McuPred, DcFits, Matches, Codes, Coming, IsZero;
      ghost var good := && Before(prev, seg, mcus) && mcus != []
                        && forall i :: 0 <= i < |blocks| ==> IsZero(blocks[i]);
      if sc.restartInterval != 0 {
        if restartsToGo == 0 {
          if good {
            FixedStays(coder);
          }
          var ok := ProcessRestart(prev, seg, mcus);
          if !ok {
            return OutOfData;
          }
        }
        restartsToGo := restartsToGo - 1;
      }
      if good {
        AliveFacts(coder);
      }
      if coder.ct == -1 {
        return BadCode;
      }
      ghost var mcu, next: Trace;
      if good {
        mcu, next := mcus[0], SegmentTrace(sc, McuPred(sc, Pred(lastDc, dcContext), mcus[0], 0), mcus[1..], Done);
      } else {
        mcu, next := seq(|sc.membership|, _ => seq(64, _ => 0)), Done;
      }
      status := DecodeBlocks(blocks, seg, mcu, next);
      if status.Good? {
        AliveFacts(coder);
      } else if good {
        GaveUpFacts(coder, seg);
      }
    }
  }
}
