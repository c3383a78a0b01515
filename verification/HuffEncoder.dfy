// The Huffman entropy encoder: the MCU coders of the five modes and the segment they share.
module HuffEncoder {
  import opened Powers
  import opened Digits
  import opened Coefs
  import opened Segments
  import opened HuffCode
  import opened HuffTables
  import opened HuffBits
  import opened HuffBlock
  import opened HuffSpectral
  import opened HuffRefine
  import opened HuffScan
  import opened HuffWriter

  /** How a coder returns: JERR_HUFF_MISSING_CODE and JERR_BAD_DCT_COEF are fatal. */
  datatype Status = Fine | MissingCode | BadCoef

  /** No symbol of ops lacks a code that is needed. */
  ghost predicate Writable(w: HuffWriter, ops: Ops) {
    w.gather || Covered(w.tables, ops)
  }

  method CountBits(v: nat) returns (n: nat)
    ensures n == BitLength(v)
  {
    n := 0;
    var t := v;
    while t != 0
      invariant n + BitLength(t) == BitLength(v)
    {
      n := n + 1;
      t := t / 2;
    }
  }

  /** The bits of a value of category n, none for 0. */
  method PutValue(w: HuffWriter, v: int, n: nat, ghost next: Ops)
    requires w.Valid() && n == BitLength(Abs(v)) <= 16
    modifies w
    ensures w.Valid() && w.past == old(w.past) && w.before == old(w.before)
    ensures Plan(w.hist, next) == old(Plan(w.hist, ValueOps(v, next)))
  {
    hide BitLength, Plan;
    if n != 0 {
      PlanThen(w.hist, Raw(Magnitude(v), n), next);
      w.EmitNumber(Magnitude(v), n);
    }
  }

  lemma PlanThen(hist: seq<Op>, op: Op, rest: Ops)
    ensures Plan(hist, Then(op, rest)) == Plan(hist + [op], rest)
  {
  }

  /** Emit one symbol of a plan. */
  method PutSymbol(w: HuffWriter, tbl: nat, s: nat, ghost next: Ops) returns (st: Status)
    requires w.Valid() && tbl < 8 && s < 256
    modifies w
    ensures !st.BadCoef?
    ensures w.past == old(w.past) && w.before == old(w.before)
    ensures st.Fine? ==> w.Valid() && Plan(w.hist, next) == old(Plan(w.hist, Then(Sym(tbl, s), next)))
    ensures st.Fine? && Writable(w, Then(Sym(tbl, s), next)) ==> Writable(w, next)
    ensures st.MissingCode? ==> !Writable(w, Then(Sym(tbl, s), next))
  {
    hide Plan, HasCode;
    PlanThen(w.hist, Sym(tbl, s), next);
    var ok := w.EmitSymbol(tbl, s);
    st := if ok then Fine else MissingCode;
  }

  /** A DC difference. */
  method PutDc(w: HuffWriter, tbl: nat, diff: int, ghost next: Ops) returns (st: Status)
    requires w.Valid() && tbl < NUM_HUFF_TBLS
    modifies w
    ensures w.past == old(w.past) && w.before == old(w.before)
    ensures st.BadCoef? <==> !DcInRange(diff)
    ensures st.Fine? ==> w.Valid() && Plan(w.hist, next) == old(Plan(w.hist, DcOps(tbl, diff, next)))
    ensures st.Fine? && Writable(w, DcOps(tbl, diff, next)) ==> Writable(w, next)
    ensures st.MissingCode? ==> !Writable(w, DcOps(tbl, diff, next))
  {
    hide BitLength, Plan, ValueOps;
    var n := CountBits(Abs(diff));
    if n > MAX_COEF_BITS + 1 {
      return BadCoef;
    }
    CoveredValue(w.tables, diff, next);
    st := PutSymbol(w, DcSlot(tbl), n, ValueOps(diff, next));
    if st.Fine? {
      PutValue(w, diff, n, next);
    }
  }

  /** The AC coefficients of a sequential block. */
  method PutAc(w: HuffWriter, sc: Scan, tbl: nat, block: Block, ghost next: Ops) returns (st: Status)
    requires w.Valid() && tbl < NUM_HUFF_TBLS && IsScan(sc) && !sc.progressive
    modifies w
    ensures w.past == old(w.past) && w.before == old(w.before)
    ensures st.BadCoef? ==> !AcInRange(Zigzag(sc, block), 1)
    ensures st.Fine? ==> AcInRange(Zigzag(sc, block), 1)
    ensures st.Fine? ==> w.Valid() && Plan(w.hist, next) == old(Plan(w.hist, AcOps(tbl, Zigzag(sc, block), 1, 0, next)))
    ensures st.Fine? && Writable(w, AcOps(tbl, Zigzag(sc, block), 1, 0, next)) ==> Writable(w, next)
    ensures st.MissingCode? ==> !Writable(w, AcOps(tbl, Zigzag(sc, block), 1, 0, next))
  {
    hide BitLength, Plan, ValueOps, AcOps, Covered, IsOrder, IsScan, Coef, HuffWriter.Valid;
    ScanFacts(sc);
    ghost var zz := Zigzag(sc, block);
    ghost var goal := Plan(w.hist, AcOps(tbl, zz, 1, 0, next));
    ghost var good := Writable(w, AcOps(tbl, zz, 1, 0, next));
    var r := 0;
    for k := 1 to sc.se + 1
      invariant w.Valid() && w.past == old(w.past) && w.before == old(w.before)
      invariant Plan(w.hist, AcOps(tbl, zz, k, r, next)) == goal
      invariant good ==> Writable(w, AcOps(tbl, zz, k, r, next))
      invariant forall i :: 1 <= i < k ==> BitLength(Abs(zz[i])) <= MAX_COEF_BITS
    {
      var temp := Coef(sc, block, k);
      AcOpsStep(tbl, zz, k, r, next);
      if temp == 0 {
        NoBitsOfZero(temp);
        r := r + 1;
        } else {
        while r > 15
          invariant w.Valid() && w.past == old(w.past) && w.before == old(w.before)
          invariant Plan(w.hist, AcOps(tbl, zz, k, r, next)) == goal
          invariant good ==> Writable(w, AcOps(tbl, zz, k, r, next))
        {
          AcOpsStep(tbl, zz, k, r, next);
          st := PutSymbol(w, AcSlot(tbl), ZRL, AcOps(tbl, zz, k, r - 16, next));
          if st != Fine {
            return;
          }
          r := r - 16;
        }
        AcOpsStep(tbl, zz, k, r, next);
        var nbits := CountBits(Abs(temp));
        if nbits > MAX_COEF_BITS {
          return BadCoef;
        }
        ghost var more := AcOps(tbl, zz, k + 1, 0, next);
        CoveredValue(w.tables, temp, more);
        st := PutSymbol(w, AcSlot(tbl), 16 * r + nbits, ValueOps(temp, more));
        if st != Fine {
          return;
        }
        PutValue(w, temp, nbits, more);
        r := 0;
      }
    }
    AcOpsStep(tbl, zz, |zz|, r, next);
    st := Fine;
    if r > 0 {
      st := PutSymbol(w, AcSlot(tbl), 0, next);
    }
  }

  ghost method SkipValue(w: HuffWriter, v: int, next: Ops)
    requires w.Valid() && w.gather
    modifies w`hist
    ensures w.Valid() && Plan(w.hist, next) == old(Plan(w.hist, ValueOps(v, next)))
  {
    hide BitLength, Plan;
    var n := BitLength(Abs(v));
    if n != 0 {
      PlanThen(w.hist, Raw(Magnitude(v), n), next);
      w.SkipNumber(Magnitude(v), n);
    }
  }

  /** htest_one_block: count the symbols of a sequential block without coding it. */
  method CountBlock(w: HuffWriter, sc: Scan, dcTbl: nat, acTbl: nat, block: Block, lastDcVal: int, ghost next: Ops)
    returns (st: Status)
    requires w.Valid() && w.gather && dcTbl < NUM_HUFF_TBLS && acTbl < NUM_HUFF_TBLS && IsScan(sc) && !sc.progressive
    modifies w
    ensures w.past == old(w.past) && w.before == old(w.before) && !st.MissingCode?
    ensures st.Fine? ==> DcInRange(block[0] - lastDcVal) && AcInRange(Zigzag(sc, block), 1)
    ensures st.BadCoef? ==> !DcInRange(block[0] - lastDcVal) || !AcInRange(Zigzag(sc, block), 1)
    ensures st.Fine? ==> w.Valid()
    ensures st.Fine? ==> (Plan(w.hist, next) ==
                          old(Plan(w.hist, DcOps(dcTbl, block[0] - lastDcVal, AcOps(acTbl, Zigzag(sc, block), 1, 0,
                              next)))))
  {
    hide BitLength, Plan, ValueOps, AcOps, Covered, IsOrder, IsScan, Coef, HuffWriter.Valid;
    ScanFacts(sc);
    ghost var zz := Zigzag(sc, block);
    var diff := block[0] - lastDcVal;
    ghost var acs := AcOps(acTbl, zz, 1, 0, next);
    ghost var goal := Plan(w.hist, DcOps(dcTbl, diff, acs));
    var nbits := CountBits(Abs(diff));
    if nbits > MAX_COEF_BITS + 1 {
      return BadCoef;
    }
    PlanThen(w.hist, Sym(DcSlot(dcTbl), nbits), ValueOps(diff, acs));
    w.CountSymbol(DcSlot(dcTbl), nbits);
    SkipValue(w, diff, acs);
    var r := 0;
    for k := 1 to sc.se + 1
      invariant w.Valid() && w.past == old(w.past) && w.before == old(w.before)
      invariant Plan(w.hist, AcOps(acTbl, zz, k, r, next)) == goal
      invariant forall i :: 1 <= i < k ==> BitLength(Abs(zz[i])) <= MAX_COEF_BITS
    {
      var temp := Coef(sc, block, k);
      AcOpsStep(acTbl, zz, k, r, next);
      if temp == 0 {
        NoBitsOfZero(temp);
        r := r + 1;
      } else {
        while r > 15
          invariant w.Valid() && w.past == old(w.past) && w.before == old(w.before)
          invariant Plan(w.hist, AcOps(acTbl, zz, k, r, next)) == goal
        {
          AcOpsStep(acTbl, zz, k, r, next);
          PlanThen(w.hist, Sym(AcSlot(acTbl), ZRL), AcOps(acTbl, zz, k, r - 16, next));
          w.CountSymbol(AcSlot(acTbl), ZRL);
          r := r - 16;
        }
        AcOpsStep(acTbl, zz, k, r, next);
        nbits := CountBits(Abs(temp));
        if nbits > MAX_COEF_BITS {
          return BadCoef;
        }
        ghost var more := AcOps(acTbl, zz, k + 1, 0, next);
        PlanThen(w.hist, Sym(AcSlot(acTbl), 16 * r + nbits), ValueOps(temp, more));
        w.CountSymbol(AcSlot(acTbl), 16 * r + nbits);
        SkipValue(w, temp, more);
        r := 0;
      }
    }
    AcOpsStep(acTbl, zz, |zz|, r, next);
    st := Fine;
    if r > 0 {
      PlanThen(w.hist, Sym(AcSlot(acTbl), 0), next);
      w.CountSymbol(AcSlot(acTbl), 0);
    }
  }

  lemma NoBitsOfZero(v: int)
    requires v == 0
    ensures BitLength(Abs(v)) == 0
  {
  }

  lemma ScanFacts(sc: Scan)
    requires IsScan(sc)
    ensures sc.se < 64
  {
  }

  lemma AcOpsStep(tbl: nat, zz: seq<int>, k: nat, r: nat, next: Ops)
    requires k <= |zz|
    ensures AcOps(tbl, zz, k, r, next) ==
            if k == |zz| then (if r > 0 then Then(Sym(AcSlot(tbl), 0), next) else next)
            else if zz[k] == 0 then AcOps(tbl, zz, k + 1, r + 1, next)
            else if r > 15 then Then(Sym(AcSlot(tbl), ZRL), AcOps(tbl, zz, k, r - 16, next))
            else Then(Sym(AcSlot(tbl), 16 * r + BitLength(Abs(zz[k]))), ValueOps(zz[k], AcOps(tbl, zz, k + 1, 0, next)))
  {
  }

  /** Whether the coefficients of an MCU are in range, and the predictions after it. */
  ghost predicate McuOutcome(sc: Scan, st: Status, before: seq<int>, toGo: nat, mcu: Mcu, after: seq<int>) {
    && IsScan(sc) && |mcu| == |sc.membership|
    && var p := if sc.restartInterval != 0 && toGo == 0 && sc.ss == 0 then NoPred() else before;
       && IsPred(p) && (st.Fine? ==> McuInRange(sc, p, mcu, 0)) && (st.BadCoef? ==> !McuInRange(sc, p, mcu, 0))
       && (st.Fine? ==> after == PredAfter(sc, p, mcu))
  }

  /** A symbol of the segment just finished, or of the one with this MCU, has no code. */
  ghost predicate Lacks(w: HuffWriter, sc: Scan, toGo: nat, cur: Mcus, mcu: Mcu, rest: Mcus) {
    && IsScan(sc)
    && if sc.restartInterval != 0 && toGo == 0
       then (AreMcus(sc, cur) && !Writable(w, SegmentOps(sc, NoCarry(), cur)))
            || (AreMcus(sc, [mcu] + rest) && !Writable(w, SegmentOps(sc, NoCarry(), [mcu] + rest)))
       else AreMcus(sc, cur + ([mcu] + rest)) && !Writable(w, SegmentOps(sc, NoCarry(), cur + ([mcu] + rest)))
  }

  /** How the restart counters relate to the finished segments and the current one. */
  ghost predicate Counting(interval: nat, segs: seq<Mcus>, cur: Mcus, toGo: nat, num: nat) {
    num == |segs| % 8 &&
    if interval == 0 then segs == []
    else toGo + |cur| == interval && forall j :: 0 <= j < |segs| ==> |segs[j]| == interval
  }

  lemma CountsOn(interval: nat, segs: seq<Mcus>, cur: Mcus, toGo: nat, num: nat, mcu: Mcu)
    requires Counting(interval, segs, cur, toGo, num)
    ensures if interval != 0 && toGo == 0
            then Counting(interval, segs + [cur], [mcu], NextToGo(interval, toGo), (num + 1) % 8)
            else Counting(interval, segs, cur + [mcu], NextToGo(interval, toGo), num)
  {
  }

  class HuffEntropyEncoder {
    const sc: Scan
    const w: HuffWriter
    const bitBuffer: array<bool>

    var lastDc: seq<int>
    var eobrun: nat
    var be: nat
    var restartsToGo: nat
    var nextRestartNum: nat

    // The MCUs of finished segments, the data bytes written for them, and those of the current segment.
    ghost var segs: seq<Mcus>
    ghost var datas: seq<seq<byte>>
    ghost var cur: Mcus

    /** start_pass: statistics are gathered or data is written. */
    constructor (scan: Scan, gather: bool, tables: Tables, derived: seq<CDerived>)
      requires IsScan(scan) && (gather || Derived(tables, derived))
      ensures sc == scan && Carries() && Carried() == NoCarry()
      ensures fresh(w) && fresh(bitBuffer) && w.Valid() && w.gather == gather && w.tables == tables
      ensures w.hist == w.past == [] && w.out == w.before == []
      ensures restartsToGo == scan.restartInterval && nextRestartNum == 0 && segs == [] && datas == [] && cur == []
    {
      sc := scan;
      w := new HuffWriter(gather, tables, derived);
      bitBuffer := new bool[MAX_CORR_BITS](_ => false);
      lastDc, eobrun, be := NoPred(), 0, 0;
      restartsToGo, nextRestartNum := scan.restartInterval, 0;
      segs, datas, cur := [], [], [];
    }

    /** The state between MCUs. */
    ghost predicate Carries()
      reads this`lastDc, this`eobrun, this`be
    {
      && IsScan(sc) && IsPred(lastDc) && bitBuffer.Length == MAX_CORR_BITS
      && eobrun < MAX_RUN && be <= CORR_LIMIT && (eobrun == 0 ==> be == 0)
      && (sc.ss > 0 ==> lastDc == NoPred())
      && (!ModeOf(sc).AcRefine? ==> be == 0) && (!ModeOf(sc).AcRefine? && !ModeOf(sc).AcFirst? ==> eobrun == 0)
    }

    lemma CarryBounds()
      requires Carries()
      ensures IsScan(sc) && bitBuffer.Length == MAX_CORR_BITS && be <= CORR_LIMIT
    {
    }

    ghost function Carried(): Carry
      requires be <= bitBuffer.Length
      reads this`lastDc, this`eobrun, this`be, bitBuffer
    {
      Carry(lastDc, eobrun, bitBuffer[..be])
    }

    function Tbl(): nat
      requires IsScan(sc)
    {
      sc.comps[0].acTbl
    }

    /** Emit correction bits from the buffer. */
    method EmitBufferedBits(start: nat, n: nat, ghost next: Ops)
      requires w.Valid() && start + n <= bitBuffer.Length
      modifies w
      ensures w.Valid() && w.past == old(w.past) && w.before == old(w.before)
      ensures Plan(w.hist, next) == old(Plan(w.hist, CorrOps(bitBuffer[start..start + n], next)))
    {
      hide Plan, HuffWriter.Valid;
      ghost var bits := bitBuffer[start..start + n];
      ghost var goal := Plan(w.hist, CorrOps(bits, next));
      assert bits[0..] == bits;
      for i := 0 to n
        invariant w.Valid() && w.past == old(w.past) && w.before == old(w.before)
        invariant Plan(w.hist, CorrOps(bits[i..], next)) == goal
      {
        var bit := if bitBuffer[start + i] then 1 else 0;
        assert bits[i..][1..] == bits[i + 1..];
        PlanThen(w.hist, Raw(bit, 1), CorrOps(bits[i + 1..], next));
        w.EmitNumber(bit, 1);
      }
    }

    /** Emit any pending end-of-band run and its correction bits. */
    method EmitEobrun(ghost next: Ops) returns (st: Status)
      requires w.Valid() && IsScan(sc) && bitBuffer.Length == MAX_CORR_BITS
      requires eobrun <= MAX_RUN && be <= MAX_CORR_BITS && (eobrun == 0 ==> be == 0)
      modifies w, this`eobrun, this`be
      ensures w.past == old(w.past) && w.before == old(w.before) && !st.BadCoef?
      ensures st.Fine? ==> w.Valid() && eobrun == be == 0
      ensures st.Fine? ==> Plan(w.hist, next) == old(Plan(w.hist, EobOps(Tbl(), eobrun, bitBuffer[..be], next)))
      ensures st.Fine? && Writable(w, old(EobOps(Tbl(), eobrun, bitBuffer[..be], next))) ==> Writable(w, next)
      ensures st.MissingCode? ==> !Writable(w, old(EobOps(Tbl(), eobrun, bitBuffer[..be], next)))
    {
      hide Plan, HuffWriter.Valid, CorrOps, BitLength, IsScan, Covered;
      st := Fine;
      if eobrun > 0 {
        var nbits := CountBits(eobrun);
        nbits := nbits - 1;
        RunCategory(sc, eobrun);
        ghost var corr := CorrOps(bitBuffer[..be], next);
        ghost var rest := if nbits == 0 then corr else Then(Raw(eobrun, nbits), corr);
        CoveredRun(w.tables, eobrun, nbits, bitBuffer[..be], next);
        st := PutSymbol(w, AcSlot(Tbl()), 16 * nbits, rest);
        if st != Fine {
          return;
        }
        if nbits != 0 {
          PlanThen(w.hist, Raw(eobrun, nbits), corr);
          w.EmitNumber(eobrun, nbits);
        }
        eobrun := 0;
        assert bitBuffer[0..0 + be] == bitBuffer[..be];
        EmitBufferedBits(0, be, next);
        be := 0;
      }
    }

    /** The band of a block in a first scan. */
    method AcFirstBlock(block: Block, ghost more: seq<Zz>) returns (st: Status)
      requires w.Valid() && Carries() && ModeOf(sc) == AcFirst && be == 0
      modifies w, this`eobrun, this`be
      ensures w.past == old(w.past) && w.before == old(w.before)
      ensures st.BadCoef? ==> !AcInRange(Zigzag(sc, block), sc.ss)
      ensures st.Fine? ==> AcInRange(Zigzag(sc, block), sc.ss)
      ensures st.Fine? ==> w.Valid() && Carries() && be == 0
      ensures st.Fine? ==> Plan(w.hist, FirstSegment(Tbl(), sc.ss, more, eobrun)) ==
                           old(Plan(w.hist, FirstOps(Tbl(), sc.ss, Zigzag(sc, block), sc.ss, 0, eobrun, more)))
      ensures st.Fine? && Writable(w, old(FirstOps(Tbl(), sc.ss, Zigzag(sc, block), sc.ss, 0, eobrun, more))) ==>
                Writable(w, FirstSegment(Tbl(), sc.ss, more, eobrun))
      ensures st.MissingCode? ==> !Writable(w, old(FirstOps(Tbl(), sc.ss, Zigzag(sc, block), sc.ss, 0, eobrun, more)))
    {
      hide Plan, HuffWriter.Valid, BitLength, IsScan, Covered, FirstOps, FirstSegment, EobOps, ValueOps, Coef,
           ShiftDown;
      ghost var zz := Zigzag(sc, block);
      ghost var tbl, ss := Tbl(), sc.ss;
      ghost var ops := FirstOps(tbl, ss, zz, ss, 0, eobrun, more);
      ghost var goal, good := Plan(w.hist, ops), Writable(w, ops);
      BandFacts(sc);
      EmptyBuffer(bitBuffer);
      var r := 0;
      for k := sc.ss to sc.se + 1
        invariant w.Valid() && w.past == old(w.past) && w.before == old(w.before) && Carries() && be == 0
        invariant Plan(w.hist, FirstOps(tbl, ss, zz, k, r, eobrun, more)) == goal
        invariant good ==> Writable(w, FirstOps(tbl, ss, zz, k, r, eobrun, more))
        invariant forall i :: ss <= i < k ==> BitLength(Abs(zz[i])) <= MAX_COEF_BITS
      {
        FirstOpsStep(tbl, ss, zz, k, r, eobrun, more);
        var temp := Coef(sc, block, k);
        temp := ShiftDown(temp, sc.al);
        if temp == 0 {
          NoBitsOfZero(temp);
          r := r + 1;
        } else {
          if eobrun > 0 {
            st := EmitEobrun(FirstOps(tbl, ss, zz, k, r, 0, more));
            if st != Fine {
              return;
            }
          }
          while r > 15
            invariant w.Valid() && w.past == old(w.past) && w.before == old(w.before) && Carries() && be == eobrun == 0
            invariant Plan(w.hist, FirstOps(tbl, ss, zz, k, r, 0, more)) == goal
            invariant good ==> Writable(w, FirstOps(tbl, ss, zz, k, r, 0, more))
          {
            FirstOpsStep(tbl, ss, zz, k, r, 0, more);
            st := PutSymbol(w, AcSlot(Tbl()), ZRL, FirstOps(tbl, ss, zz, k, r - 16, 0, more));
            if st != Fine {
              return;
            }
            r := r - 16;
          }
          FirstOpsStep(tbl, ss, zz, k, r, 0, more);
          var nbits := CountBits(Abs(temp));
          if nbits > MAX_COEF_BITS {
            return BadCoef;
          }
          ghost var rest := FirstOps(tbl, ss, zz, k + 1, 0, 0, more);
          CoveredValue(w.tables, temp, rest);
          st := PutSymbol(w, AcSlot(Tbl()), 16 * r + nbits, ValueOps(temp, rest));
          if st != Fine {
            return;
          }
          PutValue(w, temp, nbits, rest);
          r := 0;
        }
      }
      FirstOpsStep(tbl, ss, zz, sc.se + 1, r, eobrun, more);
      st := Fine;
      if r > 0 {
        eobrun := eobrun + 1;
        if eobrun == MAX_RUN {
          st := EmitEobrun(FirstSegment(tbl, ss, more, 0));
        }
      }
    }

    /** The absolute values of the band after the point transform, and the last index that is 1 there. */
    method AbsValues(block: Block) returns (absvalues: array<nat>, eob: nat)
      requires IsScan(sc) && ModeOf(sc) == AcRefine
      ensures fresh(absvalues) && absvalues.Length == DCTSIZE2
      ensures forall k :: sc.ss <= k <= sc.se ==> absvalues[k] == Abs(Zigzag(sc, block)[k])
      ensures eob == LastNew(Zigzag(sc, block), sc.ss, sc.se + 1)
    {
      hide Pow2, IsOrder, Coef, ShiftDown;
      absvalues := new nat[DCTSIZE2](_ => 0);
      eob := 0;
      ghost var zz := Zigzag(sc, block);
      for k := sc.ss to sc.se + 1
        invariant forall i :: sc.ss <= i < k ==> absvalues[i] == Abs(zz[i])
        invariant eob == LastNew(zz, sc.ss, k)
      {
        var temp := Abs(Coef(sc, block, k)) / Pow2(sc.al);
        SignAndSize(Coef(sc, block, k), sc.al);
        absvalues[k] := temp;
        if temp == 1 {
          eob := k;
        }
      }
    }

    /** A run of sixteen zeros, and the corrections that go with it. */
    method Zrl(ghost zz: Zz, ghost k: nat, ghost r: nat, br: nat, ghost more: seq<Zz>) returns (st: Status)
      requires w.Valid() && Carries() && ModeOf(sc) == AcRefine && br < DCTSIZE2 && sc.ss <= k < |zz|
      requires zz[k] != 0 && r > 15 && k <= LastNew(zz, sc.ss, |zz|)
      modifies w, this`eobrun, this`be
      ensures w.past == old(w.past) && w.before == old(w.before) && !st.BadCoef?
      ensures st.Fine? ==> w.Valid() && Carries() && eobrun == be == 0
      ensures st.Fine? ==>
                Plan(w.hist, RefineOps(Tbl(), sc.ss, zz, k, r - 16, [], 0, [], more)) ==
                old(Plan(w.hist, RefineOps(Tbl(), sc.ss, zz, k, r, bitBuffer[be..be + br], eobrun, bitBuffer[..be],
                    more)))
      ensures st.Fine? && Writable(w, old(RefineOps(Tbl(), sc.ss, zz, k, r, bitBuffer[be..be + br], eobrun,
              bitBuffer[..be], more))) ==>
                Writable(w, RefineOps(Tbl(), sc.ss, zz, k, r - 16, [], 0, [], more))
      ensures st.MissingCode? ==>
                !Writable(w, old(RefineOps(Tbl(), sc.ss, zz, k, r, bitBuffer[be..be + br], eobrun, bitBuffer[..be],
                    more)))
    {
      hide Plan, HuffWriter.Valid, IsScan, Covered, RefineOps, EobOps, CorrOps, LastNew;
      BandFacts(sc);
      var base := be;
      ghost var corr := bitBuffer[base..base + br];
      RefineOpsStep(Tbl(), sc.ss, zz, k, r, corr, eobrun, bitBuffer[..be], more);
      RefineOpsStep(Tbl(), sc.ss, zz, k, r, corr, 0, [], more);
      NoRun(Tbl(), bitBuffer, RefineOps(Tbl(), sc.ss, zz, k, r, corr, 0, [], more));
      st := EmitEobrun(RefineOps(Tbl(), sc.ss, zz, k, r, corr, 0, [], more));
      if st != Fine {
        return;
      }
      ghost var rest := RefineOps(Tbl(), sc.ss, zz, k, r - 16, [], 0, [], more);
      CoveredCorr(w.tables, corr, rest);
      st := PutSymbol(w, AcSlot(Tbl()), ZRL, CorrOps(corr, rest));
      if st != Fine {
        return;
      }
      EmitBufferedBits(base, br, rest);
    }

    /** As many runs of sixteen zeros as there are, but none that the end of the band covers. */
    method ZrlRuns(ghost zz: Zz, k: nat, r0: nat, br0: nat, eob: nat, ghost more: seq<Zz>)
      returns (st: Status, r: nat, br: nat)
      requires w.Valid() && Carries() && ModeOf(sc) == AcRefine && br0 < DCTSIZE2 && sc.ss <= k < |zz|
      requires zz[k] != 0 && eob == LastNew(zz, sc.ss, |zz|)
      modifies w, this`eobrun, this`be
      ensures w.past == old(w.past) && w.before == old(w.before) && !st.BadCoef?
      ensures st.Fine? ==> w.Valid() && Carries() && be <= CORR_LIMIT && !(r > 15 && k <= eob) && br <= br0
      ensures st.Fine? ==>
                Plan(w.hist, RefineOps(Tbl(), sc.ss, zz, k, r, bitBuffer[be..be + br], eobrun, bitBuffer[..be],
                    more)) ==
                old(Plan(w.hist, RefineOps(Tbl(), sc.ss, zz, k, r0, bitBuffer[be..be + br0], eobrun, bitBuffer[..be],
                    more)))
      ensures st.Fine? && Writable(w, old(RefineOps(Tbl(), sc.ss, zz, k, r0, bitBuffer[be..be + br0], eobrun,
              bitBuffer[..be], more))) ==>
                Writable(w, RefineOps(Tbl(), sc.ss, zz, k, r, bitBuffer[be..be + br], eobrun, bitBuffer[..be], more))
      ensures st.MissingCode? ==>
                !Writable(w, old(RefineOps(Tbl(), sc.ss, zz, k, r0, bitBuffer[be..be + br0], eobrun, bitBuffer[..be],
                    more)))
    {
      hide Plan, HuffWriter.Valid, IsScan, RefineOps, LastNew, Writable, HuffEntropyEncoder.Carries;
      CarryBounds();
      ghost var ops := RefineOps(Tbl(), sc.ss, zz, k, r0, bitBuffer[be..be + br0], eobrun, bitBuffer[..be], more);
      ghost var goal, good := Plan(w.hist, ops), Writable(w, ops);
      st, r, br := Fine, r0, br0;
      while r > 15 && k <= eob
        invariant w.Valid() && w.past == old(w.past) && w.before == old(w.before) && Carries()
        invariant be <= CORR_LIMIT && br <= br0
        invariant Plan(w.hist, RefineOps(Tbl(), sc.ss, zz, k, r, bitBuffer[be..be + br], eobrun, bitBuffer[..be],
                  more)) == goal
        invariant good ==> Writable(w, RefineOps(Tbl(), sc.ss, zz, k, r, bitBuffer[be..be + br], eobrun, bitBuffer[..be], more))
      {
        st := Zrl(zz, k, r, br, more);
        if st != Fine {
          return;
        }
        r := r - 16;
        br := 0;
        assert bitBuffer[..0] == [];
      }
      st := Fine;
    }

    /** A newly nonzero coefficient: its run, its sign, and the corrections that go with it. */
    method NewCoef(ghost zz: Zz, ghost k: nat, r: nat, br: nat, negative: bool, ghost more: seq<Zz>)
      returns (st: Status)
      requires w.Valid() && Carries() && ModeOf(sc) == AcRefine && br < DCTSIZE2 && sc.ss <= k < |zz|
      requires Abs(zz[k]) == 1 && !(r > 15 && k <= LastNew(zz, sc.ss, |zz|)) && negative == (zz[k] < 0)
      modifies w, this`eobrun, this`be
      ensures w.past == old(w.past) && w.before == old(w.before) && !st.BadCoef?
      ensures st.Fine? ==> w.Valid() && Carries() && eobrun == be == 0
      ensures st.Fine? ==>
                Plan(w.hist, RefineOps(Tbl(), sc.ss, zz, k + 1, 0, [], 0, [], more)) ==
                old(Plan(w.hist, RefineOps(Tbl(), sc.ss, zz, k, r, bitBuffer[be..be + br], eobrun, bitBuffer[..be],
                    more)))
      ensures st.Fine? && Writable(w, old(RefineOps(Tbl(), sc.ss, zz, k, r, bitBuffer[be..be + br], eobrun,
              bitBuffer[..be], more))) ==>
                Writable(w, RefineOps(Tbl(), sc.ss, zz, k + 1, 0, [], 0, [], more))
      ensures st.MissingCode? ==>
                !Writable(w, old(RefineOps(Tbl(), sc.ss, zz, k, r, bitBuffer[be..be + br], eobrun, bitBuffer[..be],
                    more)))
    {
      hide Plan, HuffWriter.Valid, IsScan, Covered, RefineOps, EobOps, CorrOps, LastNew;
      BandFacts(sc);
      var base := be;
      ghost var corr := bitBuffer[base..base + br];
      RefineOpsStep(Tbl(), sc.ss, zz, k, r, corr, eobrun, bitBuffer[..be], more);
      RefineOpsStep(Tbl(), sc.ss, zz, k, r, corr, 0, [], more);
      NoRun(Tbl(), bitBuffer, RefineOps(Tbl(), sc.ss, zz, k, r, corr, 0, [], more));
      st := EmitEobrun(RefineOps(Tbl(), sc.ss, zz, k, r, corr, 0, [], more));
      if st != Fine {
        return;
      }
      var bit := if negative then 0 else 1;
      ghost var rest := RefineOps(Tbl(), sc.ss, zz, k + 1, 0, [], 0, [], more);
      CoveredRun(w.tables, bit, 1, corr, rest);
      ShortRun(zz, sc.ss, k, r);
      st := PutSymbol(w, AcSlot(Tbl()), 16 * r + 1, Then(Raw(bit, 1), CorrOps(corr, rest)));
      if st != Fine {
        return;
      }
      PlanThen(w.hist, Raw(bit, 1), CorrOps(corr, rest));
      w.EmitNumber(bit, 1);
      EmitBufferedBits(base, br, rest);
    }

    /** One coefficient: a zero is counted; otherwise runs of sixteen zeros go first, then there is a
        correction bit or a new coefficient. */
    method RefineCoef(ghost zz: Zz, k: nat, temp: nat, negative: bool, r0: nat, br0: nat, eob: nat, ghost more: seq<Zz>)
      returns (st: Status, r: nat, br: nat)
      requires w.Valid() && Carries() && ModeOf(sc) == AcRefine && br0 < DCTSIZE2 - 1 && sc.ss <= k < |zz|
      requires eob == LastNew(zz, sc.ss, |zz|) && temp == Abs(zz[k]) && (zz[k] != 0 ==> negative == (zz[k] < 0))
      requires (temp % 2 == 1) == Odd(zz[k])
      modifies w, bitBuffer, this`eobrun, this`be
      ensures w.past == old(w.past) && w.before == old(w.before) && !st.BadCoef?
      ensures st.Fine? ==> w.Valid() && Carries() && be <= CORR_LIMIT && br <= br0 + 1
      ensures st.Fine? ==>
                Plan(w.hist, RefineOps(Tbl(), sc.ss, zz, k + 1, r, bitBuffer[be..be + br], eobrun, bitBuffer[..be],
                    more)) ==
                old(Plan(w.hist, RefineOps(Tbl(), sc.ss, zz, k, r0, bitBuffer[be..be + br0], eobrun, bitBuffer[..be],
                    more)))
      ensures st.Fine? && Writable(w, old(RefineOps(Tbl(), sc.ss, zz, k, r0, bitBuffer[be..be + br0], eobrun,
              bitBuffer[..be], more))) ==>
                Writable(w, RefineOps(Tbl(), sc.ss, zz, k + 1, r, bitBuffer[be..be + br], eobrun, bitBuffer[..be],
                    more))
      ensures st.MissingCode? ==>
                !Writable(w, old(RefineOps(Tbl(), sc.ss, zz, k, r0, bitBuffer[be..be + br0], eobrun, bitBuffer[..be],
                    more)))
    {
      hide Plan, HuffWriter.Valid, IsScan, RefineOps, LastNew, Writable, HuffEntropyEncoder.Carries, EobOps, CorrOps,
           Odd;
      CarryBounds();
      if temp == 0 {
        RefineOpsStep(Tbl(), sc.ss, zz, k, r0, bitBuffer[be..be + br0], eobrun, bitBuffer[..be], more);
        return Fine, r0 + 1, br0;
      }
      st, r, br := ZrlRuns(zz, k, r0, br0, eob, more);
      if st != Fine {
        return;
      }
      if temp > 1 {
        RefineOpsStep(Tbl(), sc.ss, zz, k, r, bitBuffer[be..be + br], eobrun, bitBuffer[..be], more);
        AppendCorr(be, br, temp % 2 == 1);
        br := br + 1;
      } else {
        st := NewCoef(zz, k, r, br, negative, more);
        br, r := 0, 0;
        assert bitBuffer[..0] == [];
      }
    }

    method AppendCorr(base: nat, br: nat, bit: bool)
      requires base + br < bitBuffer.Length
      modifies bitBuffer
      ensures bitBuffer[..base] == old(bitBuffer[..base])
      ensures bitBuffer[base..base + (br + 1)] == old(bitBuffer[base..base + br]) + [bit]
    {
      bitBuffer[base + br] := bit;
    }

    /** Count the block as ended, with its corrections, and write the run out if it is long enough. */
    method EndBand(br: nat, ghost more: seq<Zz>) returns (st: Status)
      requires w.Valid() && Carries() && ModeOf(sc) == AcRefine && br < DCTSIZE2
      modifies w, this`eobrun, this`be
      ensures w.past == old(w.past) && w.before == old(w.before) && !st.BadCoef?
      ensures st.Fine? ==> w.Valid() && Carries()
      ensures var run, corr := old(eobrun + 1), old(bitBuffer[..be] + bitBuffer[be..be + br]);
              var was := if run == MAX_RUN || |corr| > CORR_LIMIT
                         then EobOps(Tbl(), run, corr, RefineSegment(Tbl(), sc.ss, more, 0, []))
                         else RefineSegment(Tbl(), sc.ss, more, run, corr);
              && (st.Fine? ==> var now := RefineSegment(Tbl(), sc.ss, more, eobrun, bitBuffer[..be]);
                               Plan(w.hist, now) == Plan(old(w.hist), was) && (Writable(w, was) ==> Writable(w, now)))
              && (st.MissingCode? ==> !Writable(w, was))
    {
      hide Plan, HuffWriter.Valid, IsScan, Covered, RefineSegment, EobOps, CorrOps;
      assert bitBuffer[..be] + bitBuffer[be..be + br] == bitBuffer[..be + br];
      eobrun := eobrun + 1;
      be := be + br;
      st := Fine;
      if eobrun == MAX_RUN || be > CORR_LIMIT {
        st := EmitEobrun(RefineSegment(Tbl(), sc.ss, more, 0, []));
        assert bitBuffer[..0] == [];
      }
    }

    /** One more bit of the band of a block. */
    method AcRefineBlock(block: Block, ghost more: seq<Zz>) returns (st: Status)
      requires w.Valid() && Carries() && ModeOf(sc) == AcRefine
      modifies w, bitBuffer, this`eobrun, this`be
      ensures w.past == old(w.past) && w.before == old(w.before) && !st.BadCoef?
      ensures st.Fine? ==> w.Valid() && Carries()
      ensures st.Fine? ==> Plan(w.hist, RefineSegment(Tbl(), sc.ss, more, eobrun, bitBuffer[..be])) ==
                           old(Plan(w.hist, RefineOps(Tbl(), sc.ss, Zigzag(sc, block), sc.ss, 0, [], eobrun,
                               bitBuffer[..be], more)))
      ensures st.Fine? && Writable(w, old(RefineOps(Tbl(), sc.ss, Zigzag(sc, block), sc.ss, 0, [], eobrun,
              bitBuffer[..be], more))) ==>
                Writable(w, RefineSegment(Tbl(), sc.ss, more, eobrun, bitBuffer[..be]))
      ensures st.MissingCode? ==>
                !Writable(w, old(RefineOps(Tbl(), sc.ss, Zigzag(sc, block), sc.ss, 0, [], eobrun, bitBuffer[..be],
                    more)))
    {
      hide Plan, HuffWriter.Valid, BitLength, IsScan, Covered, RefineOps, RefineSegment, EobOps, Coef, ShiftDown,
           CorrOps,
           HuffEntropyEncoder.Carries, LastNew, Odd, Writable, Zigzag, NumBits, IsOrder;
      CarryBounds();
      ghost var zz := Zigzag(sc, block);
      ghost var tbl, ss := Tbl(), sc.ss;
      ghost var ops := RefineOps(tbl, ss, zz, ss, 0, [], eobrun, bitBuffer[..be], more);
      ghost var goal, good := Plan(w.hist, ops), Writable(w, ops);
      BandFacts(sc);
      ZigzagFacts(sc, block);
      var absvalues, eob := AbsValues(block);
      ghost var vals := absvalues[..];
      var r: nat, br: nat := 0, 0;
      assert bitBuffer[be..be + 0] == [];
      assert forall j :: ss <= j <= sc.se ==> vals[j] == Abs(zz[j]);
      for k := sc.ss to sc.se + 1
        invariant w.Valid() && w.past == old(w.past) && w.before == old(w.before) && Carries()
        invariant be <= CORR_LIMIT && br <= k - ss && absvalues[..] == vals
        invariant Plan(w.hist, RefineOps(tbl, ss, zz, k, r, bitBuffer[be..be + br], eobrun, bitBuffer[..be],
                  more)) == goal
        invariant good ==>
                  Writable(w, RefineOps(tbl, ss, zz, k, r, bitBuffer[be..be + br], eobrun, bitBuffer[..be], more))
      {
        var temp := absvalues[k];
        assert vals[k] == temp;
        SignAndSize(Coef(sc, block, k), sc.al);
        st, r, br := RefineCoef(zz, k, temp, Coef(sc, block, k) < 0, r, br, eob, more);
        if st != Fine {
          return;
        }
      }
      RefineOpsStep(tbl, ss, zz, sc.se + 1, r, bitBuffer[be..be + br], eobrun, bitBuffer[..be], more);
      st := Fine;
      if r > 0 || br > 0 {
        st := EndBand(br, more);
      }
    }

    /** One block in the modes that code block after block. */
    method PutBlock(blkn: nat, block: Block, ghost next: Ops) returns (st: Status)
      requires w.Valid() && Carries() && blkn < |sc.membership| && !ModeOf(sc).AcFirst? && !ModeOf(sc).AcRefine?
      modifies w, this`lastDc
      ensures w.past == old(w.past) && w.before == old(w.before)
      ensures st.Fine? ==> w.Valid() && Carries() && lastDc == NextPred(sc, old(lastDc), blkn, block)
      ensures st.Fine? ==> Plan(w.hist, next) == old(Plan(w.hist, BlockOps(sc, lastDc, blkn, block, next)))
      ensures st.Fine? && Writable(w, old(BlockOps(sc, lastDc, blkn, block, next))) ==> Writable(w, next)
      ensures st.Fine? ==> BlockInRange(sc, old(lastDc), blkn, block)
      ensures st.BadCoef? ==> !BlockInRange(sc, old(lastDc), blkn, block)
      ensures st.MissingCode? ==> !Writable(w, old(BlockOps(sc, lastDc, blkn, block, next)))
    {
      hide Plan, HuffWriter.Valid, AcOps, Zigzag, IsOrder, Covered, DcOps, DcInRange, AcInRange, Pow2;
      var ci := sc.membership[blkn];
      var comp := sc.comps[ci];
      var temp2 := DcShift(sc, block);
      ShiftInRange(block[0], sc.al);
      if ModeOf(sc).Sequential? {
        WholeDc(sc, block);
        ghost var acs := AcOps(comp.acTbl, Zigzag(sc, block), 1, 0, next);
        if w.gather {
          st := CountBlock(w, sc, comp.dcTbl, comp.acTbl, block, lastDc[ci], next);
          lastDc := lastDc[ci := block[0]];
          return;
        }
        st := PutDc(w, comp.dcTbl, block[0] - lastDc[ci], acs);
        if st.Fine? {
          st := PutAc(w, sc, comp.acTbl, block, next);
          lastDc := lastDc[ci := block[0]];
        }
      } else if ModeOf(sc).DcFirst? {
        st := PutDc(w, comp.dcTbl, temp2 - lastDc[ci], next);
        lastDc := lastDc[ci := temp2];
      } else {
        PlanThen(w.hist, Raw(temp2, 1), next);
        CoveredRaw(w.tables, temp2, next);
        w.EmitNumber(temp2, 1);
        st := Fine;
      }
    }

    /** The blocks of one MCU, where rest is the rest of the segment. */
    method PutMcu(mcu: Mcu, ghost rest: Mcus) returns (st: Status)
      requires w.Valid() && Carries() && |mcu| == |sc.membership| && AreMcus(sc, rest)
      modifies w, bitBuffer, this`lastDc, this`eobrun, this`be
      ensures w.past == old(w.past) && w.before == old(w.before)
      ensures st.Fine? ==> w.Valid() && Carries() && McuInRange(sc, old(lastDc), mcu, 0)
      ensures st.BadCoef? ==> !McuInRange(sc, old(lastDc), mcu, 0)
      ensures st.Fine? ==> lastDc == if ModeOf(sc).AcFirst? || ModeOf(sc).AcRefine? then old(lastDc) else McuPred(sc, old(lastDc), mcu, 0)
      ensures st.Fine? ==> Plan(w.hist, SegmentOps(sc, Carried(), rest)) == old(Plan(w.hist, SegmentOps(sc, Carried(), [mcu] + rest)))
      ensures st.Fine? && Writable(w, old(SegmentOps(sc, Carried(), [mcu] + rest))) ==>
              Writable(w, SegmentOps(sc, Carried(), rest))
      ensures st.MissingCode? ==> !Writable(w, old(SegmentOps(sc, Carried(), [mcu] + rest)))
    {
      hide Plan, HuffWriter.Valid, FirstSegment, RefineSegment, Covered, IsOrder, Zigzag, Writable, BlockOps,
           BlockInRange;
      SegmentStep(sc, Carried(), mcu, rest);
      match ModeOf(sc) {
        case AcFirst =>
          BandFacts(sc);
          st := AcFirstBlock(mcu[0], Bands(sc, rest));
          BandInRange(sc, old(lastDc), mcu);
        case AcRefine =>
          BandFacts(sc);
          st := AcRefineBlock(mcu[0], Bands(sc, rest));
          BandInRange(sc, old(lastDc), mcu);
        case _ =>
          ghost var next := DcSegment(sc, McuPred(sc, lastDc, mcu, 0), rest);
          st := PutBlocks(mcu, next);
      }
    }

    method PutBlocks(mcu: Mcu, ghost next: Ops) returns (st: Status)
      requires w.Valid() && Carries() && |mcu| == |sc.membership| && !ModeOf(sc).AcFirst? && !ModeOf(sc).AcRefine?
      modifies w, this`lastDc
      ensures w.past == old(w.past) && w.before == old(w.before)
      ensures st.Fine? ==> w.Valid() && Carries() && McuInRange(sc, old(lastDc), mcu, 0)
      ensures st.BadCoef? ==> !McuInRange(sc, old(lastDc), mcu, 0)
      ensures st.Fine? ==> lastDc == McuPred(sc, old(lastDc), mcu, 0)
      ensures st.Fine? ==> Plan(w.hist, next) == old(Plan(w.hist, McuOps(sc, lastDc, mcu, 0, next)))
      ensures st.Fine? && Writable(w, old(McuOps(sc, lastDc, mcu, 0, next))) ==> Writable(w, next)
      ensures st.MissingCode? ==> !Writable(w, old(McuOps(sc, lastDc, mcu, 0, next)))
    {
      hide Plan, HuffWriter.Valid, Covered, IsOrder, Zigzag, Writable, BlockOps, BlockInRange, NextPred;
      ghost var ops := McuOps(sc, lastDc, mcu, 0, next);
      ghost var goal, good, range := Plan(w.hist, ops), Writable(w, ops), McuInRange(sc, lastDc, mcu, 0);
      for blkn := 0 to |sc.membership|
        invariant w.Valid() && w.past == old(w.past) && w.before == old(w.before) && Carries()
        invariant McuPred(sc, lastDc, mcu, blkn) == McuPred(sc, old(lastDc), mcu, 0)
        invariant Plan(w.hist, McuOps(sc, lastDc, mcu, blkn, next)) == goal
        invariant good ==> Writable(w, McuOps(sc, lastDc, mcu, blkn, next))
        invariant range == McuInRange(sc, lastDc, mcu, blkn)
      {
        st := PutBlock(blkn, mcu[blkn], McuOps(sc, NextPred(sc, lastDc, blkn, mcu[blkn]), mcu, blkn + 1, next));
        if st != Fine {
          return;
        }
      }
      st := Fine;
    }

    // ----- restarts and the end of the scan

    /** The current segment is coded up to rest, the finished ones completely. */
    ghost predicate Valid(rest: Mcus)
      reads this, w, bitBuffer
    {
      && w.Valid() && Carries() && Aiming(rest) && Finished() && Counters()
    }

    ghost predicate Aiming(rest: Mcus)
      requires Carries()
      reads this`lastDc, this`eobrun, this`be, this`cur, w`hist, bitBuffer
    {
      && AreMcus(sc, cur) && AreMcus(sc, rest) && AreMcus(sc, cur + rest)
      && Plan(w.hist, SegmentOps(sc, Carried(), rest)) == SegPlan(sc, cur + rest)
      && (Writable(w, SegmentOps(sc, NoCarry(), cur + rest)) ==> Writable(w, SegmentOps(sc, Carried(), rest)))
    }

    ghost predicate Finished()
      requires IsScan(sc)
      reads this`segs, this`datas, w`past, w`before
    {
      && |datas| == |segs| && (forall j :: 0 <= j < |segs| ==> AreMcus(sc, segs[j])) && w.past == AllOps(sc, segs)
      && (!w.gather ==> w.before == Wire(datas))
      && (!w.gather ==> forall j :: 0 <= j < |segs| ==> Coded(sc, w.tables, segs[j], datas[j]))
    }

    ghost predicate Counters()
      reads this`restartsToGo, this`nextRestartNum, this`segs, this`cur
    {
      Counting(sc.restartInterval, segs, cur, restartsToGo, nextRestartNum)
    }

    lemma Facts(rest: Mcus)
      requires Valid(rest)
      ensures IsPred(lastDc) && AreMcus(sc, rest) && AreMcus(sc, cur) && cur + [] == cur
    {
    }

    /** A new encoder may start on anything. */
    lemma Begins(mcus: Mcus)
      requires w.Valid() && Carries() && Carried() == NoCarry() && w.hist == w.past == [] && w.before == []
      requires segs == [] && datas == [] && cur == [] && nextRestartNum == 0 && restartsToGo == sc.restartInterval
      requires AreMcus(sc, mcus)
      ensures Valid(mcus)
    {
      hide HuffWriter.Valid, IsScan;
      assert [] + mcus == mcus;
    }

    /** Write out what is pending and end the segment's data. */
    method EndSegment() returns (st: Status)
      requires IsScan(sc) && AreMcus(sc, cur) && Valid([])
      modifies w, this`eobrun, this`be
      ensures !st.BadCoef? && (st.MissingCode? ==> !Writable(w, SegmentOps(sc, NoCarry(), cur)))
      ensures w.past == old(w.past) && w.before == old(w.before)
      ensures st.Fine? ==> eobrun == be == 0 && w.hist == SegPlan(sc, cur)
      ensures st.Fine? && w.gather ==> w.Valid()
      ensures st.Fine? && !w.gather ==> w.Flushed() && Coded(sc, w.tables, cur, w.data)
    {
      hide Plan, Covered, FirstSegment, RefineSegment, IsScan, SegmentOps, HuffWriter.Valid, BitsOf, Stuff, Derived,
           EobOps, Wire, Coded;
      assert cur + [] == cur;
      NothingMore(sc, Carried());
      ghost var ops := SegmentOps(sc, NoCarry(), cur);
      PendingOnly(sc, Carried());
      ghost var pending := EobOps(Tbl(), eobrun, bitBuffer[..be], Done);
      assert Writable(w, ops) ==> Writable(w, pending);
      PlanDone(w.hist);
      if sc.progressive {
        st := EmitEobrun(Done);
        PlanDone(w.hist);
        if st != Fine {
          return;
        }
      }
      st := Fine;
      if !w.gather {
        w.FlushSegment();
        CodedSegment(sc, w, cur);
      }
    }

    /** End the segment, write a restart marker, and start over. */
    method EmitRestart() returns (st: Status)
      requires Valid([])
      modifies this`lastDc, this`eobrun, this`be, this`segs, this`datas, this`cur, w
      ensures !st.BadCoef? && (st.MissingCode? ==> !Writable(w, SegmentOps(sc, NoCarry(), old(cur))))
      ensures st.Fine? ==> w.Valid() && Carries() && Carried() == NoCarry() && w.hist == [] && Finished()
      ensures st.Fine? ==> segs == old(segs) + [old(cur)] && cur == []
    {
      hide IsScan, SegmentOps, HuffWriter.Valid, HuffWriter.Flushed, HuffWriter.Ready, Derived, Stuff, Wire, Coded,
           SegPlan, AllOps,
           HuffEntropyEncoder.Aiming, Writable, HuffEntropyEncoder.Counters;
      SegmentFacts();
      AllOpsAppend(sc, segs, cur);
      st := EndSegment();
      if st != Fine {
        return;
      }
      if !w.gather {
        FlushedOut(w);
        WireAppends(datas, w.data, w.out);
        w.EmitMarker(0xD0 + nextRestartNum);
        datas := datas + [w.data];
      } else {
        datas := datas + [[]];
      }
      segs, cur := segs + [cur], [];
      if sc.ss == 0 {
        lastDc := NoPred();
      } else {
        eobrun, be := 0, 0;
      }
      w.StartSegment();
      EmptyBuffer(bitBuffer);
    }

    lemma SegmentFacts()
      requires Valid([])
      ensures nextRestartNum == |segs| % 8 && AreMcus(sc, cur) && w.past == AllOps(sc, segs) && (sc.ss > 0 ==>
              lastDc == NoPred())
      ensures (!w.gather ==> w.before == Wire(datas)) && |datas| == |segs|
      ensures forall j :: 0 <= j < |segs| ==> AreMcus(sc, segs[j])
      ensures cur + [] == cur
    {
    }

    /** The next MCU of the current segment. */
    method CodeMcu(mcu: Mcu, ghost rest: Mcus) returns (st: Status)
      requires w.Valid() && Carries() && |mcu| == |sc.membership| && AreMcus(sc, rest) && Aiming([mcu] + rest)
      modifies this`lastDc, this`eobrun, this`be, this`cur, w, bitBuffer
      ensures w.past == old(w.past) && w.before == old(w.before)
      ensures st.Fine? ==> w.Valid() && Carries() && cur == old(cur) + [mcu] && Aiming(rest)
      ensures (st.Fine? ==> McuInRange(sc, old(lastDc), mcu, 0)) && (st.BadCoef? ==>
              !McuInRange(sc, old(lastDc), mcu, 0))
      ensures st.Fine? ==> lastDc == if ModeOf(sc).AcFirst? || ModeOf(sc).AcRefine? then old(lastDc) else McuPred(sc, old(lastDc), mcu, 0)
      ensures st.MissingCode? ==> AreMcus(sc, old(cur) + ([mcu] + rest)) &&
                                  !Writable(w, SegmentOps(sc, NoCarry(), old(cur) + ([mcu] + rest)))
    {
      hide SegmentOps, HuffWriter.Valid, SegPlan, Writable, Plan, McuInRange, McuPred, IsOrder;
      assert cur + ([mcu] + rest) == cur + [mcu] + rest;
      st := PutMcu(mcu, rest);
      if st == Fine {
        cur := cur + [mcu];
      }
    }

    /** Code one MCU, after a restart when one is due; rest is what follows it in its segment. */
    method EncodeMcu(mcu: Mcu, ghost rest: Mcus) returns (st: Status)
      requires IsScan(sc) && |mcu| == |sc.membership| && AreMcus(sc, rest)
      requires Valid(if sc.restartInterval != 0 && restartsToGo == 0 then [] else [mcu] + rest)
      modifies this, w, bitBuffer
      ensures st.Fine? ==> Valid(rest)
      ensures st.Fine? ==>
                if sc.restartInterval != 0 && old(restartsToGo) == 0
                then segs == old(segs) + [old(cur)] && cur == [mcu]
                else segs == old(segs) && cur == old(cur) + [mcu]
      ensures st.Fine? ==> restartsToGo == NextToGo(sc.restartInterval, old(restartsToGo))
      ensures McuOutcome(sc, st, old(lastDc), old(restartsToGo), mcu, lastDc)
      ensures st.MissingCode? ==> Lacks(w, sc, old(restartsToGo), old(cur), mcu, rest)
    {
      hide SegmentOps, HuffWriter.Valid, Wire, Coded, SegPlan, AllOps, Writable, Plan, McuInRange, McuPred, IsOrder,
           Derived,
           HuffEntropyEncoder.Finished, HuffEntropyEncoder.Aiming, IsScan, Counting;
      CountsOn(sc.restartInterval, segs, cur, restartsToGo, nextRestartNum, mcu);
      Facts(if sc.restartInterval != 0 && restartsToGo == 0 then [] else [mcu] + rest);
      if sc.restartInterval != 0 && restartsToGo == 0 {
        st := EmitRestart();
        if st != Fine {
          return;
        }
        StartsAgain([mcu] + rest);
      }
      ghost var before := cur;
      st := CodeMcu(mcu, rest);
      if st != Fine {
        return;
      }
      assert cur == before + [mcu] && (before == [] ==> cur == [mcu]);
      if sc.restartInterval != 0 {
        if restartsToGo == 0 {
          restartsToGo := sc.restartInterval;
          nextRestartNum := (nextRestartNum + 1) % 8;
        }
        restartsToGo := restartsToGo - 1;
      }
    }

    /** After a restart the next segment may be anything. */
    lemma StartsAgain(rest: Mcus)
      requires w.Valid() && Carries() && Carried() == NoCarry() && w.hist == [] && cur == [] && AreMcus(sc, rest)
      ensures Aiming(rest) && cur + rest == rest
    {
      hide HuffWriter.Valid, IsScan, SegmentOps, Writable;
      assert [] + rest == rest;
    }

    /** finish_pass: write what is pending; in a data pass, pad the last byte. */
    method FinishPass() returns (st: Status)
      requires Valid([])
      modifies this`eobrun, this`be, this`segs, this`datas, this`cur, w
      ensures !st.BadCoef? && (st.MissingCode? ==> !Writable(w, SegmentOps(sc, NoCarry(), old(cur))))
      ensures st.Fine? ==> segs == old(segs) + [old(cur)] && |datas| == |segs|
      ensures st.Fine? ==> (forall j :: 0 <= j < |segs| ==> AreMcus(sc, segs[j])) && w.past + w.hist == AllOps(sc, segs)
      ensures st.Fine? && w.gather ==> w.Valid()
      ensures st.Fine? && !w.gather ==>
                && w.out == Wire(datas[..|datas| - 1]) + Stuff(datas[|datas| - 1])
                && forall j :: 0 <= j < |segs| ==> Coded(sc, w.tables, segs[j], datas[j])
    {
      hide IsScan, SegmentOps, HuffWriter.Valid, HuffWriter.Flushed, Derived, Stuff, Wire, Coded, SegPlan, AllOps,
           HuffEntropyEncoder.Aiming, Writable, HuffEntropyEncoder.Counters;
      SegmentFacts();
      AllOpsAppend(sc, segs, cur);
      st := EndSegment();
      if st != Fine {
        return;
      }
      if !w.gather {
        FlushedOut(w);
        assert (datas + [w.data])[..|datas|] == datas;
      }
      segs, datas, cur := segs + [cur], datas + [w.data], [];
    }
  }

  lemma ZigzagFacts(sc: Scan, block: Block)
    requires IsScan(sc) && sc.progressive
    ensures forall k :: 0 <= k <= sc.se ==> Zigzag(sc, block)[k] == ShiftDown(Coef(sc, block, k), sc.al)
  {
  }

  lemma EmptyBuffer(a: array<bool>)
    ensures a[..0] == []
  {
  }

  lemma BandFacts(sc: Scan)
    requires IsScan(sc) && sc.progressive && sc.ss > 0
    ensures sc.ss <= sc.se < 64 && sc.comps[0].acTbl < NUM_HUFF_TBLS
  {
  }

  lemma RunCategory(sc: Scan, run: nat)
    requires IsScan(sc) && 1 <= run <= MAX_RUN
    ensures 1 <= BitLength(run) <= 15 && sc.comps[0].acTbl < NUM_HUFF_TBLS
  {
    Pow2Values();
    BitLengthIs(run, 15);
  }

  lemma CoveredRun(ts: Tables, run: nat, n: nat, corr: seq<bool>, next: Ops)
    ensures Covered(ts, CorrOps(corr, next)) == Covered(ts, next)
    ensures Covered(ts, Then(Raw(run, n), CorrOps(corr, next))) == Covered(ts, next)
  {
    CoveredCorr(ts, corr, next);
  }

  lemma FirstOpsStep(tbl: nat, ss: nat, zz: Zz, k: nat, r: nat, run: nat, more: seq<Zz>)
    ensures FirstOps(tbl, ss, zz, k, r, run, more) ==
            if k >= |zz| then
              if r == 0 then FirstSegment(tbl, ss, more, run)
              else if run + 1 == MAX_RUN then EobOps(tbl, run + 1, [], FirstSegment(tbl, ss, more, 0))
              else FirstSegment(tbl, ss, more, run + 1)
            else if zz[k] == 0 then FirstOps(tbl, ss, zz, k + 1, r + 1, run, more)
            else if run > 0 then EobOps(tbl, run, [], FirstOps(tbl, ss, zz, k, r, 0, more))
            else if r > 15 then Then(Sym(AcSlot(tbl), ZRL), FirstOps(tbl, ss, zz, k, r - 16, 0, more))
            else Then(Sym(AcSlot(tbl), 16 * r + BitLength(Abs(zz[k]))), ValueOps(zz[k], FirstOps(tbl, ss, zz, k + 1,
                0, 0, more)))
  {
    hide FirstSegment;
  }

  lemma RefineOpsStep(tbl: nat, ss: nat, zz: Zz, k: nat, r: nat, br: seq<bool>, run: nat, corr: seq<bool>,
                      more: seq<Zz>)
    ensures RefineOps(tbl, ss, zz, k, r, br, run, corr, more) ==
            if k >= |zz| then
              if r == 0 && br == [] then RefineSegment(tbl, ss, more, run, corr)
              else if run + 1 == MAX_RUN || |corr + br| > CORR_LIMIT then
                EobOps(tbl, run + 1, corr + br, RefineSegment(tbl, ss, more, 0, []))
              else RefineSegment(tbl, ss, more, run + 1, corr + br)
            else if zz[k] == 0 then RefineOps(tbl, ss, zz, k + 1, r + 1, br, run, corr, more)
            else if r > 15 && k <= LastNew(zz, ss, |zz|) then
              if run > 0 then EobOps(tbl, run, corr, RefineOps(tbl, ss, zz, k, r, br, 0, [], more))
              else Then(Sym(AcSlot(tbl), ZRL), CorrOps(br, RefineOps(tbl, ss, zz, k, r - 16, [], 0, [], more)))
            else if Abs(zz[k]) > 1 then RefineOps(tbl, ss, zz, k + 1, r, br + [Odd(zz[k])], run, corr, more)
            else if run > 0 then EobOps(tbl, run, corr, RefineOps(tbl, ss, zz, k, r, br, 0, [], more))
            else
              Then(Sym(AcSlot(tbl), 16 * r + 1), Then(Raw(if zz[k] < 0 then 0 else 1, 1),
                   CorrOps(br, RefineOps(tbl, ss, zz, k + 1, 0, [], 0, [], more))))
  {
    hide RefineSegment, LastNew, CorrOps, EobOps;
  }

  /** No run pending: nothing to write. */
  lemma NoRun(tbl: nat, buf: array<bool>, next: Ops)
    ensures EobOps(tbl, 0, buf[..0], next) == next && buf[..0] == []
  {
  }

  /** A newly nonzero coefficient is not behind the last one. */
  lemma ShortRun(zz: Zz, ss: nat, k: nat, r: nat)
    requires ss <= k < |zz| && Abs(zz[k]) == 1 && !(r > 15 && k <= LastNew(zz, ss, |zz|))
    ensures r <= 15
  {
  }

  lemma SignAndSize(v: int, al: nat)
    ensures var t := ShiftDown(v, al);
            Abs(t) == Abs(v) / Pow2(al) && (Abs(t) % 2 == 1) == Odd(t) && (t != 0 ==> (t < 0 <==> v < 0))
  {
    QuotientSign(Abs(v), Pow2(al));
    var q: int := Abs(v) / Pow2(al);
    ParityOf(q, if v < 0 then -q else q);
  }

  lemma QuotientSign(x: nat, p: nat)
    requires p > 0
    ensures x / p >= 0
  {
  }

  lemma ParityOf(q: int, t: int)
    requires q >= 0 && (t == q || t == -q)
    ensures Abs(t) == q && (q % 2 == 1) == Odd(t)
  {
  }

  lemma WholeDc(sc: Scan, b: Block)
    requires IsScan(sc) && !sc.progressive
    ensures DcShift(sc, b) == b[0]
  {
    assert Pow2(0) == 1;
  }

  lemma CoveredRaw(ts: Tables, v: int, next: Ops)
    ensures Covered(ts, Then(Raw(v, 1), next)) == Covered(ts, next)
  {
  }

  lemma BandInRange(sc: Scan, p: seq<int>, mcu: Mcu)
    requires IsScan(sc) && IsPred(p) && |mcu| == |sc.membership| && sc.progressive && sc.ss > 0
    ensures McuInRange(sc, p, mcu, 0) <==> ModeOf(sc).AcRefine? || AcInRange(Zigzag(sc, mcu[0]), sc.ss)
  {
    hide IsOrder, Zigzag, AcInRange;
    assert McuInRange(sc, p, mcu, 0) == (BlockInRange(sc, p, 0, mcu[0]) &&
        McuInRange(sc, NextPred(sc, p, 0, mcu[0]), mcu, 1));
  }

  /** What is to be written for an MCU and the rest of its segment. */
  lemma SegmentStep(sc: Scan, c: Carry, mcu: Mcu, rest: Mcus)
    requires IsScan(sc) && IsPred(c.pred) && |mcu| == |sc.membership| && AreMcus(sc, rest)
    ensures AreMcus(sc, [mcu] + rest)
    ensures SegmentOps(sc, c, [mcu] + rest) ==
            match ModeOf(sc)
            case AcFirst => FirstOps(sc.comps[0].acTbl, sc.ss, Zigzag(sc, mcu[0]), sc.ss, 0, c.run, Bands(sc, rest))
            case AcRefine => RefineOps(sc.comps[0].acTbl, sc.ss, Zigzag(sc, mcu[0]), sc.ss, 0, [], c.run, c.corr,
                Bands(sc, rest))
            case _ => McuOps(sc, c.pred, mcu, 0, DcSegment(sc, McuPred(sc, c.pred, mcu, 0), rest))
  {
    hide IsOrder, FirstOps, RefineOps, McuOps, Zigzag;
    assert ([mcu] + rest)[1..] == rest;
    assert Bands(sc, [mcu] + rest)[1..] == Bands(sc, rest);
  }

  /** The ops of a whole segment. */
  ghost function SegPlan(sc: Scan, mcus: Mcus): seq<Op>
    requires IsScan(sc) && AreMcus(sc, mcus)
  {
    Plan([], SegmentOps(sc, NoCarry(), mcus))
  }

  ghost function AllOps(sc: Scan, segs: seq<Mcus>): seq<Op>
    requires IsScan(sc) && forall j :: 0 <= j < |segs| ==> AreMcus(sc, segs[j])
  {
    if segs == [] then [] else AllOps(sc, segs[..|segs| - 1]) + SegPlan(sc, segs[|segs| - 1])
  }

  /** data holds the bits of a segment, padded with ones, and every symbol had a code. */
  ghost predicate Coded(sc: Scan, ts: Tables, mcus: Mcus, data: seq<byte>)
    requires IsScan(sc)
  {
    AreMcus(sc, mcus) && Padded(data, BitsOf(ts, SegPlan(sc, mcus))) && Covered(ts, SegmentOps(sc, NoCarry(), mcus))
  }

  lemma NothingMore(sc: Scan, c: Carry)
    requires IsScan(sc) && IsPred(c.pred)
    ensures AreMcus(sc, []) && SegmentOps(sc, c, []) ==
            match ModeOf(sc)
            case AcFirst => EobOps(sc.comps[0].acTbl, c.run, [], Done)
            case AcRefine => EobOps(sc.comps[0].acTbl, c.run, c.corr, Done)
            case _ => Done
  {
  }

  /** At the end of a segment only a pending run is left to write. */
  lemma PendingOnly(sc: Scan, c: Carry)
    requires IsScan(sc) && IsPred(c.pred)
    requires (!ModeOf(sc).AcRefine? ==> c.corr == []) && (!ModeOf(sc).AcRefine? && !ModeOf(sc).AcFirst? ==> c.run == 0)
    ensures SegmentOps(sc, c, []) == EobOps(sc.comps[0].acTbl, c.run, c.corr, Done)
    ensures !sc.progressive ==> SegmentOps(sc, c, []) == Done
  {
    NothingMore(sc, c);
  }

  lemma CodedSegment(sc: Scan, w: HuffWriter, mcus: Mcus)
    requires IsScan(sc) && AreMcus(sc, mcus) && w.Flushed() && w.hist == SegPlan(sc, mcus)
    ensures Coded(sc, w.tables, mcus, w.data)
  {
    hide SegmentOps, Plan, Covered, BitsOf, Derived, Padded;
    CodedOps(w.tables, w.hist, SegmentOps(sc, NoCarry(), mcus));
  }

  /** When all of a plan has been written, every symbol in it had a code. */
  lemma CodedOps(ts: Tables, hist: seq<Op>, ops: Ops)
    requires hist == Plan([], ops) && forall i :: 0 <= i < |hist| ==> OpHasCode(ts, hist[i])
    ensures Covered(ts, ops)
  {
    PlanHasCodes(ts, hist, [], ops);
  }

  lemma {:induction false} PlanHasCodes(ts: Tables, p: seq<Op>, hist: seq<Op>, ops: Ops)
    requires p == Plan(hist, ops) && forall i :: 0 <= i < |p| ==> OpHasCode(ts, p[i])
    ensures Covered(ts, ops) && |hist| <= |p| && p[..|hist|] == hist
    decreases ops
  {
    hide HasCode, OpHasCode;
    match ops
    case Done =>
    case Then(op, rest) =>
      PlanHasCodes(ts, p, hist + [op], rest);
      assert p[..|hist| + 1][|hist|] == op;
      assert p[..|hist|] == p[..|hist| + 1][..|hist|];
  }

  lemma PlanDone(hist: seq<Op>)
    ensures Plan(hist, Done) == hist
  {
  }

  lemma AllOpsAppend(sc: Scan, segs: seq<Mcus>, mcus: Mcus)
    requires IsScan(sc) && (forall j :: 0 <= j < |segs| ==> AreMcus(sc, segs[j])) && AreMcus(sc, mcus)
    ensures forall j :: 0 <= j < |segs + [mcus]| ==> AreMcus(sc, (segs + [mcus])[j])
    ensures AllOps(sc, segs + [mcus]) == AllOps(sc, segs) + SegPlan(sc, mcus)
  {
    assert (segs + [mcus])[..|segs|] == segs;
  }

  lemma FlushedOut(w: HuffWriter)
    requires w.Flushed()
    ensures w.out == w.before + Stuff(w.data)
  {
  }

  lemma WireAppends(datas: seq<seq<byte>>, data: seq<byte>, out: seq<byte>)
    requires out == Wire(datas) + Stuff(data)
    ensures out + [0xFF] + [Rst(|datas|)] == Wire(datas + [data])
  {
    assert (datas + [data])[..|datas|] == datas;
  }
}
