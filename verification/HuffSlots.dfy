// The tables a scan uses: the slots its symbols name, the tables start_pass derives for them on both sides, and
// that the other slots make no difference.
module HuffSlots {
  import opened Powers
  import opened Coefs
  import opened Digits
  import opened Segments
  import opened HuffCode
  import opened HuffTables
  import opened HuffBits
  import opened HuffBlock
  import opened HuffSpectral
  import opened HuffRefine
  import opened HuffScan
  import opened HuffWriter
  import opened HuffEncoder
  import opened HuffEncodeScan
  import opened HuffDecoder

  // ----- the symbols a scan may use

  /** A symbol of category 11 at most, which a DC symbol is itself. */
  predicate GoodSym(slot: nat, s: nat) {
    s < 256 && s % 16 <= 11 && (slot < NUM_HUFF_TBLS ==> s <= 11)
  }

  /** Symbols of the given slots only, all of them good. */
  predicate Within(ops: Ops, slots: set<nat>) {
    match ops
    case Done => true
    case Then(op, rest) => Within(rest, slots) && (op.Sym? ==> op.tbl in slots && GoodSym(op.tbl, op.s))
  }

  /** The tables that finish_pass_gather builds. */
  function Slots(sc: Scan): set<nat>
    requires IsScan(sc)
  {
    (if sc.ss == 0 && sc.ah == 0 then set i | 0 <= i < |sc.comps| :: DcSlot(sc.comps[i].dcTbl) else {})
    + (if sc.se != 0 then set i | 0 <= i < |sc.comps| :: AcSlot(sc.comps[i].acTbl) else {})
  }

  lemma WithinValue(v: int, next: Ops, slots: set<nat>)
    ensures Within(ValueOps(v, next), slots) == Within(next, slots)
  {
  }

  lemma {:induction false} WithinCorr(corr: seq<bool>, next: Ops, slots: set<nat>)
    requires Within(next, slots)
    ensures Within(CorrOps(corr, next), slots)
  {
    if corr != [] {
      WithinCorr(corr[1..], next, slots);
    }
  }

  lemma WithinEob(tbl: nat, run: nat, corr: seq<bool>, next: Ops, slots: set<nat>)
    requires Within(next, slots) && AcSlot(tbl) in slots && run <= MAX_RUN
    ensures Within(EobOps(tbl, run, corr, next), slots)
  {
    WithinCorr(corr, next, slots);
    if run > 0 {
      Pow2Values();
      BitLengthIs(run, 15);
    }
  }

  lemma {:induction false} WithinAc(tbl: nat, zz: seq<int>, k: nat, r: nat, next: Ops, slots: set<nat>)
    requires 1 <= k <= |zz| && AcInRange(zz, 1) && AcSlot(tbl) in slots && Within(next, slots)
    ensures Within(AcOps(tbl, zz, k, r, next), slots)
    decreases |zz| - k, r
  {
    hide BitLength, ValueOps;
    if k < |zz| {
      if zz[k] == 0 {
        WithinAc(tbl, zz, k + 1, r + 1, next, slots);
      } else if r > 15 {
        WithinAc(tbl, zz, k, r - 16, next, slots);
      } else {
        WithinAc(tbl, zz, k + 1, 0, next, slots);
        WithinValue(zz[k], AcOps(tbl, zz, k + 1, 0, next), slots);
      }
    }
  }

  lemma {:induction false} WithinFirst(tbl: nat, ss: nat, zz: Zz, k: nat, r: nat, run: nat, more: seq<Zz>,
                                       slots: set<nat>)
    requires ss <= k && AcSlot(tbl) in slots && run < MAX_RUN
    requires AcInRange(zz, ss) && forall z :: z in more ==> AcInRange(z, ss)
    ensures Within(FirstOps(tbl, ss, zz, k, r, run, more), slots)
    decreases |more|, 1, if k < |zz| then |zz| - k else 0, r, run
  {
    hide BitLength, ValueOps, EobOps;
    if k >= |zz| {
      if r == 0 {
        WithinFirstSegment(tbl, ss, more, run, slots);
      } else if run + 1 == MAX_RUN {
        WithinFirstSegment(tbl, ss, more, 0, slots);
        WithinEob(tbl, run + 1, [], FirstSegment(tbl, ss, more, 0), slots);
      } else {
        WithinFirstSegment(tbl, ss, more, run + 1, slots);
      }
    } else if zz[k] == 0 {
      WithinFirst(tbl, ss, zz, k + 1, r + 1, run, more, slots);
    } else if run > 0 {
      WithinFirst(tbl, ss, zz, k, r, 0, more, slots);
      WithinEob(tbl, run, [], FirstOps(tbl, ss, zz, k, r, 0, more), slots);
    } else if r > 15 {
      WithinFirst(tbl, ss, zz, k, r - 16, 0, more, slots);
    } else {
      WithinFirst(tbl, ss, zz, k + 1, 0, 0, more, slots);
      WithinValue(zz[k], FirstOps(tbl, ss, zz, k + 1, 0, 0, more), slots);
    }
  }

  lemma {:induction false} WithinFirstSegment(tbl: nat, ss: nat, blocks: seq<Zz>, run: nat, slots: set<nat>)
    requires AcSlot(tbl) in slots && run < MAX_RUN && forall z :: z in blocks ==> AcInRange(z, ss)
    ensures Within(FirstSegment(tbl, ss, blocks, run), slots)
    decreases |blocks|, 0, 0, 0, 0
  {
    hide EobOps, FirstOps;
    if blocks == [] {
      WithinEob(tbl, run, [], Done, slots);
    } else {
      WithinFirst(tbl, ss, blocks[0], ss, 0, run, blocks[1..], slots);
    }
  }

  lemma {:induction false} WithinRefine(tbl: nat, ss: nat, zz: Zz, k: nat, r: nat, br: seq<bool>, run: nat,
                                        corr: seq<bool>,
                                        more: seq<Zz>, slots: set<nat>)
    requires ss <= k && AcSlot(tbl) in slots && run < MAX_RUN
    ensures Within(RefineOps(tbl, ss, zz, k, r, br, run, corr, more), slots)
    decreases |more|, 1, if k < |zz| then |zz| - k else 0, r, run
  {
    hide EobOps, LastNew, CorrOps, RefineSegment;
    if k >= |zz| {
      if r == 0 && br == [] {
        WithinRefineSegment(tbl, ss, more, run, corr, slots);
      } else if run + 1 == MAX_RUN || |corr + br| > CORR_LIMIT {
        WithinRefineSegment(tbl, ss, more, 0, [], slots);
        WithinEob(tbl, run + 1, corr + br, RefineSegment(tbl, ss, more, 0, []), slots);
      } else {
        WithinRefineSegment(tbl, ss, more, run + 1, corr + br, slots);
      }
    } else if zz[k] == 0 {
      WithinRefine(tbl, ss, zz, k + 1, r + 1, br, run, corr, more, slots);
    } else if run > 0 && ((r > 15 && k <= LastNew(zz, ss, |zz|)) || Abs(zz[k]) <= 1) {
      WithinRefine(tbl, ss, zz, k, r, br, 0, [], more, slots);
      WithinEob(tbl, run, corr, RefineOps(tbl, ss, zz, k, r, br, 0, [], more), slots);
    } else if r > 15 && k <= LastNew(zz, ss, |zz|) {
      WithinRefine(tbl, ss, zz, k, r - 16, [], 0, [], more, slots);
      WithinCorr(br, RefineOps(tbl, ss, zz, k, r - 16, [], 0, [], more), slots);
    } else if Abs(zz[k]) > 1 {
      WithinRefine(tbl, ss, zz, k + 1, r, br + [Odd(zz[k])], run, corr, more, slots);
    } else {
      WithinRefine(tbl, ss, zz, k + 1, 0, [], 0, [], more, slots);
      WithinCorr(br, RefineOps(tbl, ss, zz, k + 1, 0, [], 0, [], more), slots);
    }
  }

  lemma {:induction false} WithinRefineSegment(tbl: nat, ss: nat, blocks: seq<Zz>, run: nat, corr: seq<bool>,
                                               slots: set<nat>)
    requires AcSlot(tbl) in slots && run < MAX_RUN
    ensures Within(RefineSegment(tbl, ss, blocks, run, corr), slots)
    decreases |blocks|, 0, 0, 0, 0
  {
    hide EobOps, RefineOps;
    if blocks == [] {
      WithinEob(tbl, run, corr, Done, slots);
    } else {
      WithinRefine(tbl, ss, blocks[0], ss, 0, [], run, corr, blocks[1..], slots);
    }
  }

  // ----- scans whose coefficients the encoder accepts

  ghost predicate SegInRange(sc: Scan, p: seq<int>, mcus: Mcus)
    requires IsScan(sc) && IsPred(p) && AreMcus(sc, mcus)
    decreases |mcus|
  {
    mcus != [] ==> McuInRange(sc, p, mcus[0], 0) && SegInRange(sc, PredAfter(sc, p, mcus[0]), mcus[1..])
  }

  lemma ScanShape(sc: Scan)
    requires IsScan(sc)
    ensures |sc.membership| > 0 && (sc.ss > 0 ==> ModeOf(sc).AcFirst? || ModeOf(sc).AcRefine?)
  {
  }

  lemma SlotsOf(sc: Scan, c: nat)
    requires IsScan(sc) && c < |sc.comps|
    ensures DcSlot(sc.comps[c].dcTbl) < NUM_HUFF_TBLS <= AcSlot(sc.comps[c].acTbl) < 8
    ensures sc.ss == 0 && sc.ah == 0 ==> DcSlot(sc.comps[c].dcTbl) in Slots(sc)
    ensures sc.se != 0 ==> AcSlot(sc.comps[c].acTbl) in Slots(sc)
  {
  }

  /** A scan in range is in range segment by segment. */
  lemma {:induction false} SplitRange(sc: Scan, p: seq<int>, toGo: nat, mcus: Mcus)
    requires IsScan(sc) && IsPred(p) && AreMcus(sc, mcus) && ScanInRange(sc, p, toGo, mcus)
    requires sc.restartInterval != 0 && (sc.ss > 0 ==> p == NoPred())
    ensures var n := if toGo < |mcus| then toGo else |mcus|;
            SegInRange(sc, p, mcus[..n]) &&
            (toGo < |mcus| ==> ScanInRange(sc, NoPred(), sc.restartInterval, mcus[toGo..]))
    decreases |mcus|
  {
    hide IsScan, McuInRange, McuPred;
    ScanShape(sc);
    if mcus == [] {
      assert mcus[..0] == [];
    } else if toGo == 0 {
      assert mcus[..0] == [] && mcus[0..] == mcus;
    } else {
      var n := if toGo < |mcus| then toGo else |mcus|;
      SplitRange(sc, PredAfter(sc, p, mcus[0]), toGo - 1, mcus[1..]);
      assert mcus[..n][1..] == mcus[1..][..n - 1];
      assert toGo < |mcus| ==> mcus[1..][toGo - 1..] == mcus[toGo..];
    }
  }

  lemma {:induction false} WholeRange(sc: Scan, p: seq<int>, toGo: nat, mcus: Mcus)
    requires IsScan(sc) && IsPred(p) && AreMcus(sc, mcus) && ScanInRange(sc, p, toGo, mcus)
    requires (sc.restartInterval == 0 || |mcus| <= toGo)
    ensures SegInRange(sc, p, mcus)
    decreases |mcus|
  {
    hide IsScan, McuInRange, McuPred;
    if mcus != [] {
      WholeRange(sc, PredAfter(sc, p, mcus[0]), NextToGo(sc.restartInterval, toGo), mcus[1..]);
    }
  }

  lemma {:induction false} ChunksInRange(sc: Scan, mcus: Mcus)
    requires IsScan(sc) && AreMcus(sc, mcus) && ScanInRange(sc, NoPred(), sc.restartInterval, mcus)
    ensures forall c :: c in Chunks(sc.restartInterval, mcus) ==> AreMcus(sc, c) && SegInRange(sc, NoPred(), c)
    decreases |mcus|
  {
    hide IsScan, McuInRange, McuPred, SegInRange, ScanInRange;
    var n := sc.restartInterval;
    if n == 0 || |mcus| <= n {
      WholeRange(sc, NoPred(), n, mcus);
    } else {
      SplitRange(sc, NoPred(), n, mcus);
      ChunksInRange(sc, mcus[n..]);
    }
  }

  lemma {:induction false} WithinMcu(sc: Scan, p: seq<int>, mcu: Mcu, i: nat, next: Ops)
    requires IsScan(sc) && IsPred(p) && |mcu| == |sc.membership| && i <= |mcu| && McuInRange(sc, p, mcu, i)
    requires !ModeOf(sc).AcFirst? && !ModeOf(sc).AcRefine? && Within(next, Slots(sc))
    ensures Within(McuOps(sc, p, mcu, i, next), Slots(sc))
    decreases |mcu| - i
  {
    hide Within, BitLength, AcOps, NextPred, Zigzag, AcInRange, IsOrder;
    if i < |mcu| {
      var next' := McuOps(sc, NextPred(sc, p, i, mcu[i]), mcu, i + 1, next);
      WithinMcu(sc, NextPred(sc, p, i, mcu[i]), mcu, i + 1, next);
      WithinBlock(sc, p, i, mcu[i], next');
    }
  }

  lemma WithinBlock(sc: Scan, p: seq<int>, i: nat, b: Block, next: Ops)
    requires IsScan(sc) && IsPred(p) && i < |sc.membership| && BlockInRange(sc, p, i, b)
    requires !ModeOf(sc).AcFirst? && !ModeOf(sc).AcRefine? && Within(next, Slots(sc))
    ensures Within(BlockOps(sc, p, i, b, next), Slots(sc))
  {
    hide BitLength, AcOps, NextPred, Zigzag, AcInRange, IsOrder, ValueOps, Slots;
    var comp := sc.comps[sc.membership[i]];
    SlotsOf(sc, sc.membership[i]);
    if ModeOf(sc).Sequential? {
      var zz := Zigzag(sc, b);
      if sc.se != 0 {
        WithinAc(comp.acTbl, zz, 1, 0, next, Slots(sc));
      } else {
        NoMoreAc(comp.acTbl, zz, next);
      }
      WithinValue(b[0] - p[sc.membership[i]], AcOps(comp.acTbl, zz, 1, 0, next), Slots(sc));
    } else if ModeOf(sc).DcFirst? {
      WithinValue(DcShift(sc, b) - p[sc.membership[i]], next, Slots(sc));
    }
  }

  lemma {:induction false} WithinDcSegment(sc: Scan, p: seq<int>, mcus: Mcus)
    requires IsScan(sc) && IsPred(p) && AreMcus(sc, mcus) && SegInRange(sc, p, mcus)
    requires !ModeOf(sc).AcFirst? && !ModeOf(sc).AcRefine?
    ensures Within(DcSegment(sc, p, mcus), Slots(sc))
    decreases |mcus|
  {
    hide IsScan, McuInRange, McuPred, McuOps;
    if mcus != [] {
      WithinDcSegment(sc, PredAfter(sc, p, mcus[0]), mcus[1..]);
      WithinMcu(sc, p, mcus[0], 0, DcSegment(sc, McuPred(sc, p, mcus[0], 0), mcus[1..]));
    }
  }

  lemma {:induction false} BandsInRange(sc: Scan, p: seq<int>, mcus: Mcus)
    requires IsScan(sc) && IsPred(p) && AreMcus(sc, mcus) && SegInRange(sc, p, mcus) && ModeOf(sc).AcFirst?
    ensures forall z :: z in Bands(sc, mcus) ==> AcInRange(z, sc.ss)
    decreases |mcus|
  {
    hide IsScan, Zigzag, AcInRange, McuInRange;
    ScanShape(sc);
    if mcus != [] {
      BandInRange(sc, p, mcus[0]);
      BandsInRange(sc, p, mcus[1..]);
      assert Bands(sc, mcus) == [Zigzag(sc, mcus[0][0])] + Bands(sc, mcus[1..]);
    }
  }

  /** A segment uses symbols of the scan's tables only, and few of each. */
  lemma WithinSegment(sc: Scan, mcus: Mcus)
    requires IsScan(sc) && AreMcus(sc, mcus) && SegInRange(sc, NoPred(), mcus)
    ensures Within(SegmentOps(sc, NoCarry(), mcus), Slots(sc))
  {
    SlotsOf(sc, 0);
    hide Within, SegInRange, FirstSegment, RefineSegment, DcSegment, Bands;
    if ModeOf(sc).AcFirst? {
      BandsInRange(sc, NoPred(), mcus);
      WithinFirstSegment(sc.comps[0].acTbl, sc.ss, Bands(sc, mcus), 0, Slots(sc));
    } else if ModeOf(sc).AcRefine? {
      WithinRefineSegment(sc.comps[0].acTbl, sc.ss, Bands(sc, mcus), 0, [], Slots(sc));
    } else {
      WithinDcSegment(sc, NoPred(), mcus);
    }
  }

  predicate IsSymOf(op: Op, slots: set<nat>) {
    op.Sym? ==> op.tbl in slots && GoodSym(op.tbl, op.s)
  }

  lemma {:induction false} PlanWithin(hist: seq<Op>, ops: Ops, slots: set<nat>)
    requires Within(ops, slots) && forall i :: 0 <= i < |hist| ==> IsSymOf(hist[i], slots)
    ensures forall i :: 0 <= i < |Plan(hist, ops)| ==> IsSymOf(Plan(hist, ops)[i], slots)
    decreases ops
  {
    match ops
    case Done =>
    case Then(op, rest) => PlanWithin(hist + [op], rest, slots);
  }

  // ----- the tables start_pass derives

  /** A table without codes: it stands in a slot that start_pass derives no table for, a null pointer there. */
  function Empty(): HuffTbl {
    HuffTbl(seq(17, _ => 0), seq(256, _ => 0))
  }

  lemma EmptyIsTable()
    ensures IsTable(Empty()) && NumSymbols(Empty()) == 0
  {
    hide Start, Legal;
    NoSymbols(Empty().bits, 17);
    NoCodes(Empty().bits);
  }

  lemma {:induction false} NoSymbols(bits: seq<nat>, l: nat)
    requires |bits| == 17 && 1 <= l <= 17 && forall i :: 0 <= i < 17 ==> bits[i] == 0
    ensures Start(bits, l) == 0
  {
    if l > 1 {
      NoSymbols(bits, l - 1);
    }
  }

  /** The tables with those of the scan's slots only. */
  function Used(sc: Scan, ts: Tables): (r: Tables)
    requires IsScan(sc)
    ensures forall t :: 0 <= t < 8 ==> r[t] == if t in Slots(sc) then ts[t] else Empty()
  {
    seq(8, t requires 0 <= t < 8 => if t in Slots(sc) then ts[t] else Empty())
  }

  /** What jpeg_make_c_derived_tbl asks of the table of a slot. */
  ghost predicate Codable(slot: nat, t: HuffTbl) {
    IsTable(t) && GoodSymbols(t, MaxSymbol(slot < NUM_HUFF_TBLS), NumSymbols(t))
  }

  /** What jpeg_make_d_derived_tbl asks of it. */
  ghost predicate Decodable(slot: nat, t: HuffTbl) {
    Legal(t.bits) && (slot < NUM_HUFF_TBLS ==> forall p :: 0 <= p < 256 && p < NumSymbols(t) ==> t.vals[p] <= 15)
  }

  /** The encoder can start the scan with the tables: those in slots the scan does not use do not matter. */
  ghost predicate Acceptable(sc: Scan, ts: Tables)
    requires IsScan(sc)
  {
    forall t :: t in Slots(sc) ==> t < 8 && Codable(t, ts[t])
  }

  /** The decoder can start the scan with the tables. */
  ghost predicate Readable(sc: Scan, ts: Tables)
    requires IsScan(sc)
  {
    forall t :: t in Slots(sc) ==> t < 8 && Decodable(t, ts[t])
  }

  lemma EmptyIsCodable(slot: nat)
    ensures Codable(slot, Empty()) && Decodable(slot, Empty())
  {
    hide Legal, Start;
    EmptyIsTable();
  }

  /** The slots done have their table derived, the others none. */
  ghost predicate CodesSoFar(done: set<nat>, ts: Tables, ds: seq<CDerived>) {
    && |ds| == 8
    && forall t :: 0 <= t < 8 ==>
        var u := if t in done then ts[t] else Empty();
        IsTable(u) && IsCDerived(u, ds[t], NumSymbols(u)) && Codable(t, u)
  }

  method DeriveCodes(ghost done: set<nat>, slot: nat, ts: Tables, ds: seq<CDerived>)
    returns (ok: bool, ds': seq<CDerived>)
    requires slot < 8 && CodesSoFar(done, ts, ds)
    ensures ok <==> Codable(slot, ts[slot])
    ensures ok ==> CodesSoFar(done + {slot}, ts, ds')
  {
    hide Legal, GoodSymbols, IsCDerived, Start;
    var r := MakeCDerived(slot < NUM_HUFF_TBLS, ts[slot]);
    ByteSymbols(ts[slot], MaxSymbol(slot < NUM_HUFF_TBLS));
    ok, ds' := r.Ok?, ds;
    if ok {
      ds' := ds[slot := r.value];
    }
  }

  lemma ByteSymbols(t: HuffTbl, max: nat)
    requires max <= 255
    ensures NumSymbols(t) <= 256 && GoodSymbols(t, max, NumSymbols(t)) ==> GoodSymbols(t, 255, NumSymbols(t))
  {
  }

  /** start_pass of the data pass: the tables of the scan are derived, and no other is looked at. */
  method DeriveTables(sc: Scan, ts: Tables) returns (ok: bool, ds: seq<CDerived>)
    requires IsScan(sc)
    ensures ok <==> Acceptable(sc, ts)
    ensures ok ==> Derived(Used(sc, ts), ds)
  {
    hide IsScan, Slots, CodesSoFar, SlotsDone, Codable, Derived, Used, Empty;
    var none := NoCodeTable();
    ds := seq(8, _ => none);
    ghost var done: set<nat> := {};
    NoSlotsDone(sc);
    StartCodes(ts, ds, none);
    for ci := 0 to |sc.comps|
      invariant CodesSoFar(done, ts, ds) && SlotsDone(sc, ci, done) && done <= Slots(sc)
    {
      SlotsOf(sc, ci);
      ghost var before := done;
      if sc.ss == 0 && sc.ah == 0 {
        ok, ds := DeriveCodes(done, DcSlot(sc.comps[ci].dcTbl), ts, ds);
        if !ok {
          return;
        }
        done := done + {DcSlot(sc.comps[ci].dcTbl)};
      }
      if sc.se != 0 {
        ok, ds := DeriveCodes(done, AcSlot(sc.comps[ci].acTbl), ts, ds);
        if !ok {
          return;
        }
        done := done + {AcSlot(sc.comps[ci].acTbl)};
      }
      MoreSlotsDone(sc, ci, before, done);
    }
    ok := true;
    AllDoneOf(sc, done);
    AllCodes(sc, ts, ds);
  }

  method NoCodeTable() returns (none: CDerived)
    ensures NumSymbols(Empty()) == 0 && IsCDerived(Empty(), none, 0)
  {
    hide *;
    EmptyIsTable();
    NoSymbolIsBad(Empty());
    var r := MakeCDerived(true, Empty());
    none := r.value;
  }

  lemma NoSymbolIsBad(t: HuffTbl)
    requires NumSymbols(t) == 0
    ensures GoodSymbols(t, MaxSymbol(true), NumSymbols(t)) && (IsTable(t) ==> Legal(t.bits))
  {
    hide Legal, NumSymbols;
  }

  lemma StartCodes(ts: Tables, ds: seq<CDerived>, none: CDerived)
    requires |ds| == 8 && (forall t :: 0 <= t < 8 ==> ds[t] == none)
    requires NumSymbols(Empty()) == 0 && IsCDerived(Empty(), none, 0)
    ensures CodesSoFar({}, ts, ds)
  {
    hide Codable, IsCDerived, Start, Legal;
    forall t | 0 <= t < 8 ensures Codable(t, Empty()) {
      EmptyIsCodable(t);
    }
    EmptyIsTable();
  }

  /** The slots of the first n components are done. */
  ghost predicate SlotsDone(sc: Scan, n: nat, done: set<nat>)
    requires IsScan(sc) && n <= |sc.comps|
  {
    && (forall i :: 0 <= i < n ==> (sc.ss == 0 && sc.ah == 0 ==> DcSlot(sc.comps[i].dcTbl) in done))
    && (forall i :: 0 <= i < n ==> (sc.se != 0 ==> AcSlot(sc.comps[i].acTbl) in done))
  }

  lemma NoSlotsDone(sc: Scan)
    requires IsScan(sc)
    ensures SlotsDone(sc, 0, {})
  {
  }

  lemma MoreSlotsDone(sc: Scan, n: nat, done: set<nat>, more: set<nat>)
    requires IsScan(sc) && n < |sc.comps| && SlotsDone(sc, n, done) && done <= more
    requires sc.ss == 0 && sc.ah == 0 ==> DcSlot(sc.comps[n].dcTbl) in more
    requires sc.se != 0 ==> AcSlot(sc.comps[n].acTbl) in more
    ensures SlotsDone(sc, n + 1, more)
  {
    hide Slots;
  }

  lemma AllDoneOf(sc: Scan, done: set<nat>)
    requires IsScan(sc) && SlotsDone(sc, |sc.comps|, done) && done <= Slots(sc)
    ensures done == Slots(sc) && forall t :: t in done ==> t < 8
  {
  }

  lemma AllCodes(sc: Scan, ts: Tables, ds: seq<CDerived>)
    requires IsScan(sc) && CodesSoFar(Slots(sc), ts, ds) && forall t :: t in Slots(sc) ==> t < 8
    ensures Acceptable(sc, ts) && Derived(Used(sc, ts), ds)
  {
    hide IsScan, Slots, Codable, IsTable, IsCDerived;
  }

  ghost predicate LooksSoFar(done: set<nat>, ts: Tables, ds: seq<DDerived>) {
    && |ds| == 8
    && forall t :: 0 <= t < 8 ==>
        var u := if t in done then ts[t] else Empty();
        IsDDerived(u, ds[t]) && Decodable(t, u)
  }

  method DeriveLooks(ghost done: set<nat>, slot: nat, ts: Tables, ds: seq<DDerived>)
    returns (ok: bool, ds': seq<DDerived>)
    requires slot < 8 && LooksSoFar(done, ts, ds)
    ensures ok <==> Decodable(slot, ts[slot])
    ensures ok ==> LooksSoFar(done + {slot}, ts, ds')
  {
    hide IsDDerived, Start, Legal;
    var r := MakeDDerived(slot < NUM_HUFF_TBLS, ts[slot]);
    LegalCount(ts[slot].bits);
    ok, ds' := r.Ok?, ds;
    if ok {
      ds' := ds[slot := r.value];
    }
  }

  /** start_pass of the decoder: the tables of the scan are derived, and no other is looked at. */
  method DeriveForDecoder(sc: Scan, ts: Tables) returns (ok: bool, ds: seq<DDerived>)
    requires IsScan(sc)
    ensures ok <==> Readable(sc, ts)
    ensures ok ==> DecodesWith(Used(sc, ts), ds) && GoodTables(Used(sc, ts))
  {
    hide IsScan, Slots, LooksSoFar, SlotsDone, Decodable, DecodesWith, GoodTables, Used, Empty;
    var none := NoLookTable();
    ds := seq(8, _ => none);
    ghost var done: set<nat> := {};
    NoSlotsDone(sc);
    StartLooks(ts, ds, none);
    for ci := 0 to |sc.comps|
      invariant LooksSoFar(done, ts, ds) && SlotsDone(sc, ci, done) && done <= Slots(sc)
    {
      SlotsOf(sc, ci);
      ghost var before := done;
      if sc.ss == 0 && sc.ah == 0 {
        ok, ds := DeriveLooks(done, DcSlot(sc.comps[ci].dcTbl), ts, ds);
        if !ok {
          return;
        }
        done := done + {DcSlot(sc.comps[ci].dcTbl)};
      }
      AcSlotUsed(sc);
      if if sc.progressive then sc.ss != 0 else sc.se != 0 {
        ok, ds := DeriveLooks(done, AcSlot(sc.comps[ci].acTbl), ts, ds);
        if !ok {
          return;
        }
        done := done + {AcSlot(sc.comps[ci].acTbl)};
      }
      MoreSlotsDone(sc, ci, before, done);
    }
    ok := true;
    AllDoneOf(sc, done);
    AllLooks(sc, ts, ds);
  }

  lemma AcSlotUsed(sc: Scan)
    requires IsScan(sc)
    ensures (if sc.progressive then sc.ss != 0 else sc.se != 0) <==> sc.se != 0
  {
  }

  method NoLookTable() returns (none: DDerived)
    ensures IsDDerived(Empty(), none)
  {
    hide *;
    EmptyIsTable();
    NoSymbolIsBad(Empty());
    var r := MakeDDerived(false, Empty());
    none := r.value;
  }

  lemma StartLooks(ts: Tables, ds: seq<DDerived>, none: DDerived)
    requires |ds| == 8 && (forall t :: 0 <= t < 8 ==> ds[t] == none) && IsDDerived(Empty(), none)
    ensures LooksSoFar({}, ts, ds)
  {
    hide Decodable, IsDDerived;
    forall t | 0 <= t < 8 ensures Decodable(t, Empty()) {
      EmptyIsCodable(t);
    }
  }

  lemma AllLooks(sc: Scan, ts: Tables, ds: seq<DDerived>)
    requires IsScan(sc) && LooksSoFar(Slots(sc), ts, ds) && forall t :: t in Slots(sc) ==> t < 8
    ensures Readable(sc, ts) && DecodesWith(Used(sc, ts), ds) && GoodTables(Used(sc, ts))
  {
    hide IsScan, Slots, IsDDerived, Legal;
  }

  /** Tables the encoder accepts are accepted by the decoder. */
  lemma AcceptableIsReadable(sc: Scan, ts: Tables)
    requires IsScan(sc) && Acceptable(sc, ts)
    ensures Readable(sc, ts)
  {
    hide IsScan, Slots, Legal;
  }

  // ----- the other slots make no difference

  ghost predicate Agree(a: Tables, b: Tables, slots: set<nat>) {
    forall t :: 0 <= t < 8 && t in slots ==> a[t] == b[t]
  }

  lemma {:induction false} CoveredAgree(a: Tables, b: Tables, ops: Ops, slots: set<nat>)
    requires Within(ops, slots) && Agree(a, b, slots)
    ensures Covered(a, ops) == Covered(b, ops)
    decreases ops
  {
    hide HasCode;
    match ops
    case Done =>
    case Then(op, rest) => CoveredAgree(a, b, rest, slots);
  }

  lemma {:induction false} BitsAgree(a: Tables, b: Tables, p: seq<Op>, slots: set<nat>)
    requires (forall i :: 0 <= i < |p| ==> IsSymOf(p[i], slots)) && Agree(a, b, slots)
    ensures BitsOf(a, p) == BitsOf(b, p)
    decreases |p|
  {
    hide HasCode, CodeBits, NumBits, GoodSym;
    if p != [] {
      BitsAgree(a, b, p[..|p| - 1], slots);
      assert IsSymOf(p[|p| - 1], slots);
    }
  }

  /** A segment in range is the same bits with tables that agree on the scan's slots. */
  lemma CodedAgree(sc: Scan, a: Tables, b: Tables, mcus: Mcus, data: seq<byte>)
    requires IsScan(sc) && AreMcus(sc, mcus) && SegInRange(sc, NoPred(), mcus) && Agree(a, b, Slots(sc))
    ensures Coded(sc, a, mcus, data) == Coded(sc, b, mcus, data)
  {
    hide IsScan, AreMcus, SegmentOps, Slots, Padded, BitsOf, Covered, Within, SegInRange, IsSymOf;
    WithinSegment(sc, mcus);
    PlanWithin([], SegmentOps(sc, NoCarry(), mcus), Slots(sc));
    CoveredAgree(a, b, SegmentOps(sc, NoCarry(), mcus), Slots(sc));
    BitsAgree(a, b, SegPlan(sc, mcus), Slots(sc));
  }

  lemma UsedAgrees(sc: Scan, ts: Tables)
    requires IsScan(sc)
    ensures Agree(ts, Used(sc, ts), Slots(sc))
  {
    hide IsScan, Slots;
  }

  /** A scan in range is covered, or coded, by tables exactly when it is by those of them it uses. */
  lemma UsedCodes(sc: Scan, ts: Tables, mcus: Mcus, bytes: seq<byte>, datas: seq<seq<byte>>)
    requires IsScan(sc) && AreMcus(sc, mcus) && ScanInRange(sc, NoPred(), sc.restartInterval, mcus)
    ensures AllCovered(sc, ts, Chunks(sc.restartInterval, mcus)) ==
            AllCovered(sc, Used(sc, ts), Chunks(sc.restartInterval, mcus))
    ensures CodedScan(sc, ts, mcus, bytes, datas) == CodedScan(sc, Used(sc, ts), mcus, bytes, datas)
  {
    hide IsScan, AreMcus, SegmentOps, Slots, Covered, Within, SegInRange, Chunks, Coded, ScanInRange, Wire, Stuff,
         Agree;
    var segs := Chunks(sc.restartInterval, mcus);
    ChunksInRange(sc, mcus);
    UsedAgrees(sc, ts);
    forall j | 0 <= j < |segs|
      ensures AreMcus(sc, segs[j]) && Covered(ts, SegmentOps(sc, NoCarry(), segs[j])) ==
              Covered(Used(sc, ts), SegmentOps(sc, NoCarry(), segs[j]))
      ensures forall data :: Coded(sc, ts, segs[j], data) == Coded(sc, Used(sc, ts), segs[j], data)
    {
      assert segs[j] in segs;
      WithinSegment(sc, segs[j]);
      CoveredAgree(ts, Used(sc, ts), SegmentOps(sc, NoCarry(), segs[j]), Slots(sc));
      forall data ensures Coded(sc, ts, segs[j], data) == Coded(sc, Used(sc, ts), segs[j], data) {
        CodedAgree(sc, ts, Used(sc, ts), segs[j], data);
      }
    }
  }

  lemma UsedCovered(sc: Scan, ts: Tables, mcus: Mcus)
    requires IsScan(sc) && AreMcus(sc, mcus) && ScanInRange(sc, NoPred(), sc.restartInterval, mcus)
    ensures AllCovered(sc, ts, Chunks(sc.restartInterval, mcus)) ==
            AllCovered(sc, Used(sc, ts), Chunks(sc.restartInterval, mcus))
  {
    UsedCodes(sc, ts, mcus, [], []);
  }
}
