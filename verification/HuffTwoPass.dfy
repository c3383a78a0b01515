// Two-pass optimisation: the statistics pass counts exactly the symbols the data pass emits, so the tables
// built from the counts have a code for each of them.
module HuffTwoPass {
  import opened Powers
  import opened Coefs
  import opened Digits
  import opened Segments
  import opened HuffCode
  import opened HuffTables
  import opened HuffBits
  import opened HuffBlock
  import opened HuffSpectral
  import opened HuffRefine
  import opened HuffScan
  import opened HuffLimit
  import opened HuffMerge
  import opened HuffGenerate
  import opened HuffWriter
  import opened HuffEncoder
  import opened HuffEncodeScan
  import opened HuffSlots
  import Opt = HuffOptimal

  // ----- every table the scan builds is used

  predicate Uses(ops: Ops, slot: nat) {
    match ops
    case Done => false
    case Then(op, rest) => (op.Sym? && op.tbl == slot) || Uses(rest, slot)
  }

  lemma {:induction false} UsesAc(tbl: nat, zz: seq<int>, k: nat, r: nat, next: Ops, slot: nat)
    requires k <= |zz|
    ensures (k < |zz| || r > 0) && slot == AcSlot(tbl) ==> Uses(AcOps(tbl, zz, k, r, next), slot)
    ensures Uses(next, slot) ==> Uses(AcOps(tbl, zz, k, r, next), slot)
    decreases |zz| - k, r
  {
    hide BitLength;
    if k < |zz| {
      if zz[k] == 0 {
        UsesAc(tbl, zz, k + 1, r + 1, next, slot);
      } else if r > 15 {
        UsesAc(tbl, zz, k, r - 16, next, slot);
      } else {
        UsesAc(tbl, zz, k + 1, 0, next, slot);
      }
    }
  }

  lemma {:induction false} UsesFirst(tbl: nat, ss: nat, zz: Zz, k: nat, r: nat, run: nat, more: seq<Zz>)
    requires k < |zz| || r > 0 || run > 0
    ensures Uses(FirstOps(tbl, ss, zz, k, r, run, more), AcSlot(tbl))
    decreases |more|, 1, if k < |zz| then |zz| - k else 0, r, run
  {
    hide BitLength, FirstSegment;
    if k >= |zz| {
      if r == 0 || run + 1 != MAX_RUN {
        UsesFirstSegment(tbl, ss, more, if r == 0 then run else run + 1);
      }
    } else if zz[k] == 0 {
      UsesFirst(tbl, ss, zz, k + 1, r + 1, run, more);
    }
  }

  lemma {:induction false} UsesFirstSegment(tbl: nat, ss: nat, blocks: seq<Zz>, run: nat)
    requires run > 0 || (blocks != [] && ss < |blocks[0]|)
    ensures Uses(FirstSegment(tbl, ss, blocks, run), AcSlot(tbl))
    decreases |blocks|, 0, 0, 0, 0
  {
    hide BitLength, FirstOps;
    if blocks != [] {
      UsesFirst(tbl, ss, blocks[0], ss, 0, run, blocks[1..]);
    }
  }

  lemma {:induction false} UsesRefine(tbl: nat, ss: nat, zz: Zz, k: nat, r: nat, br: seq<bool>, run: nat,
                                      corr: seq<bool>,
                                      more: seq<Zz>)
    requires k < |zz| || r > 0 || br != [] || run > 0
    ensures Uses(RefineOps(tbl, ss, zz, k, r, br, run, corr, more), AcSlot(tbl))
    decreases |more|, 1, if k < |zz| then |zz| - k else 0, r, run
  {
    hide BitLength, RefineSegment, LastNew, CorrOps;
    if k >= |zz| {
      if r == 0 && br == [] {
        UsesRefineSegment(tbl, ss, more, run, corr);
      } else if run + 1 != MAX_RUN && |corr + br| <= CORR_LIMIT {
        UsesRefineSegment(tbl, ss, more, run + 1, corr + br);
      }
    } else if zz[k] == 0 {
      UsesRefine(tbl, ss, zz, k + 1, r + 1, br, run, corr, more);
    } else if !(r > 15 && k <= LastNew(zz, ss, |zz|)) && Abs(zz[k]) > 1 {
      UsesRefine(tbl, ss, zz, k + 1, r, br + [Odd(zz[k])], run, corr, more);
    }
  }

  lemma {:induction false} UsesRefineSegment(tbl: nat, ss: nat, blocks: seq<Zz>, run: nat, corr: seq<bool>)
    requires run > 0 || (blocks != [] && ss < |blocks[0]|)
    ensures Uses(RefineSegment(tbl, ss, blocks, run, corr), AcSlot(tbl))
    decreases |blocks|, 0, 0, 0, 0
  {
    hide BitLength, RefineOps;
    if blocks != [] {
      UsesRefine(tbl, ss, blocks[0], ss, 0, [], run, corr, blocks[1..]);
    }
  }

  /** Block j of an MCU uses its component's tables. */
  lemma {:induction false} UsesMcu(sc: Scan, p: seq<int>, mcu: Mcu, i: nat, j: nat, next: Ops)
    requires IsScan(sc) && IsPred(p) && |mcu| == |sc.membership| && i <= j < |mcu|
    ensures var c := sc.comps[sc.membership[j]];
            && (ModeOf(sc).Sequential? || ModeOf(sc).DcFirst? ==> Uses(McuOps(sc, p, mcu, i, next), DcSlot(c.dcTbl)))
            && (ModeOf(sc).Sequential? && sc.se > 0 ==> Uses(McuOps(sc, p, mcu, i, next), AcSlot(c.acTbl)))
    decreases j - i
  {
    hide BitLength, AcOps, NextPred, Zigzag, IsOrder, ValueOps, Uses;
    var c := sc.comps[sc.membership[j]];
    var rest := McuOps(sc, NextPred(sc, p, i, mcu[i]), mcu, i + 1, next);
    if i < j {
      UsesMcu(sc, NextPred(sc, p, i, mcu[i]), mcu, i + 1, j, next);
    }
    UsesBlock(sc, p, i, mcu[i], rest, DcSlot(c.dcTbl));
    UsesBlock(sc, p, i, mcu[i], rest, AcSlot(c.acTbl));
  }

  lemma UsesBlock(sc: Scan, p: seq<int>, i: nat, b: Block, next: Ops, slot: nat)
    requires IsScan(sc) && IsPred(p) && i < |sc.membership|
    ensures Uses(next, slot) ==> Uses(BlockOps(sc, p, i, b, next), slot)
    ensures var c := sc.comps[sc.membership[i]];
            && (ModeOf(sc).Sequential? || ModeOf(sc).DcFirst? ==> slot == DcSlot(c.dcTbl) ==>
                Uses(BlockOps(sc, p, i, b, next), slot))
            && (ModeOf(sc).Sequential? && sc.se > 0 ==> slot == AcSlot(c.acTbl) ==>
                Uses(BlockOps(sc, p, i, b, next), slot))
  {
    hide BitLength, AcOps, NextPred, Zigzag, IsOrder;
    if ModeOf(sc).Sequential? {
      UsesAc(sc.comps[sc.membership[i]].acTbl, Zigzag(sc, b), 1, 0, next, slot);
    }
  }

  /** Every component has a block in the MCU. */
  ghost predicate AllPresent(sc: Scan) {
    forall c :: 0 <= c < |sc.comps| ==> c in sc.membership
  }

  lemma UsesSegment(sc: Scan, mcus: Mcus, slot: nat)
    requires IsScan(sc) && AllPresent(sc) && AreMcus(sc, mcus) && mcus != [] && slot in Slots(sc)
    ensures Uses(SegmentOps(sc, NoCarry(), mcus), slot)
  {
    hide Uses, FirstSegment, RefineSegment, McuOps, Zigzag;
    if ModeOf(sc).AcFirst? {
      UsesFirstSegment(sc.comps[0].acTbl, sc.ss, Bands(sc, mcus), 0);
    } else if ModeOf(sc).AcRefine? {
      UsesRefineSegment(sc.comps[0].acTbl, sc.ss, Bands(sc, mcus), 0, []);
    } else {
      var c :| 0 <= c < |sc.comps| && (slot == DcSlot(sc.comps[c].dcTbl) || (sc.se != 0 &&
          slot == AcSlot(sc.comps[c].acTbl)));
      assert c in sc.membership;
      var j :| 0 <= j < |sc.membership| && sc.membership[j] == c;
      UsesMcu(sc, NoPred(), mcus[0], 0, j, DcSegment(sc, McuPred(sc, NoPred(), mcus[0], 0), mcus[1..]));
    }
  }

  // ----- from ops to counts

  predicate Names(op: Op, slot: nat) {
    op.Sym? && op.tbl == slot
  }

  ghost predicate Mentions(s: seq<Op>, slot: nat) {
    exists i :: 0 <= i < |s| && Names(s[i], slot)
  }

  lemma {:induction false} PlanUses(hist: seq<Op>, ops: Ops, slot: nat)
    requires Uses(ops, slot) || Mentions(hist, slot)
    ensures Mentions(Plan(hist, ops), slot)
    decreases ops
  {
    match ops
    case Done =>
    case Then(op, rest) =>
      if Mentions(hist, slot) {
        var i :| 0 <= i < |hist| && Names(hist[i], slot);
        assert Names((hist + [op])[i], slot);
      } else if Names(op, slot) {
        assert Names((hist + [op])[|hist|], slot);
      }
      PlanUses(hist + [op], rest, slot);
  }

  /** An op of a segment is an op of the scan. */
  lemma {:induction false} InAllOps(sc: Scan, segs: seq<Mcus>, j: nat)
    requires IsScan(sc) && (forall i :: 0 <= i < |segs| ==> AreMcus(sc, segs[i])) && j < |segs|
    ensures forall op :: op in SegPlan(sc, segs[j]) ==> op in AllOps(sc, segs)
    decreases |segs|
  {
    hide SegPlan, IsScan;
    if j < |segs| - 1 {
      InAllOps(sc, segs[..|segs| - 1], j);
    }
  }

  lemma {:induction false} AllOpsWithin(sc: Scan, segs: seq<Mcus>, slots: set<nat>)
    requires IsScan(sc) && forall i :: 0 <= i < |segs| ==> AreMcus(sc, segs[i])
    requires forall i :: 0 <= i < |segs| ==> Within(SegmentOps(sc, NoCarry(), segs[i]), slots)
    ensures forall op :: op in AllOps(sc, segs) ==> IsSymOf(op, slots)
  {
    hide SegmentOps, IsScan, Within, IsSymOf;
    if segs == [] {
      assert AllOps(sc, segs) == [];
    } else {
      var n := |segs| - 1;
      AllOpsWithin(sc, segs[..n], slots);
      PlanWithin([], SegmentOps(sc, NoCarry(), segs[n]), slots);
      var p := Plan([], SegmentOps(sc, NoCarry(), segs[n]));
      forall op | op in AllOps(sc, segs) ensures IsSymOf(op, slots) {
        if op !in AllOps(sc, segs[..n]) {
          var i :| 0 <= i < |p| && p[i] == op;
        }
      }
    }
  }

  /** The counts of one slot. */
  ghost predicate CountsOf(ops: seq<Op>, slot: nat, c: seq<nat>) {
    |c| == SYMBOLS && forall s :: 0 <= s < SYMBOLS ==> c[s] == multiset(ops)[Sym(slot, s)]
  }

  function CountSeq(ops: seq<Op>, slot: nat): (c: seq<nat>)
    ensures CountsOf(ops, slot, c)
  {
    seq(SYMBOLS, s requires 0 <= s < SYMBOLS => multiset(ops)[Sym(slot, s)])
  }

  /** Counting never counts more symbols than there are. */
  lemma {:induction false} CountSum(ops: seq<Op>, slot: nat, c: seq<nat>)
    requires CountsOf(ops, slot, c)
    ensures Opt.Sum(c) <= |ops|
    decreases |ops|
  {
    hide Opt.Sum;
    if ops == [] {
      var zeros := seq(SYMBOLS, _ => 0);
      assert c == zeros;
      Opt.SumScale(zeros, zeros, 0);
    } else {
      var op, less := ops[|ops| - 1], ops[..|ops| - 1];
      assert ops == less + [op];
      var d := CountSeq(less, slot);
      CountSum(less, slot, d);
      if op.Sym? && op.tbl == slot && op.s < SYMBOLS {
        assert c == d[op.s := d[op.s] + 1];
        Opt.SumUpdate(d, op.s, d[op.s] + 1);
      } else {
        assert c == d;
      }
    }
  }

  /** Symbols of the low categories only: at most twelve in sixteen are in use. */
  lemma {:induction false} FewInUse(c: seq<nat>, n: nat)
    requires 16 * n <= |c| && forall s :: 0 <= s < 16 * n && s % 16 > 11 ==> c[s] == 0
    ensures Opt.InUse(c[..16 * n]) <= 12 * n
  {
    if n > 0 {
      FewInUse(c, n - 1);
      forall s | 16 * (n - 1) + 12 <= s < 16 * (n - 1) + 16 ensures c[s] == 0 {
        assert s % 16 == s - 16 * (n - 1);
      }
      FewInRow(c, 16 * (n - 1), 16);
    } else {
      assert c[..0] == [];
    }
  }

  lemma {:induction false} FewInRow(c: seq<nat>, base: nat, m: nat)
    requires m <= 16 && base + 16 <= |c| && forall s :: base + 12 <= s < base + 16 ==> c[s] == 0
    ensures Opt.InUse(c[..base + m]) <= Opt.InUse(c[..base]) + if m <= 12 then m else 12
  {
    if m > 0 {
      FewInRow(c, base, m - 1);
      assert c[..base + m][..base + m - 1] == c[..base + m - 1];
    }
  }

  /** Counts a table can be built from. */
  ghost predicate Countable(slot: nat, c: seq<nat>) {
    && |c| == SYMBOLS && 1 <= Opt.InUse(c[..256]) <= 254 && Opt.Sum(WithPseudo(c)) <= HUGE
    && forall s :: 0 <= s < SYMBOLS && c[s] > 0 ==> GoodSym(slot, s)
  }

  lemma CountsAreCountable(ops: seq<Op>, slot: nat, slots: set<nat>, c: seq<nat>)
    requires CountsOf(ops, slot, c) && |ops| < HUGE
    requires (forall op :: op in ops ==> IsSymOf(op, slots)) && Mentions(ops, slot)
    ensures Countable(slot, c)
  {
    hide Opt.Sum, Opt.InUse;
    CountSum(ops, slot, c);
    forall s | 0 <= s < SYMBOLS && c[s] > 0 ensures GoodSym(slot, s) {
      assert Sym(slot, s) in ops;
      assert IsSymOf(Sym(slot, s), slots);
    }
    FewInUse(c, 16);
    var i :| 0 <= i < |ops| && Names(ops[i], slot);
    assert ops[i] in ops && IsSymOf(ops[i], slots);
    assert ops[i] == Sym(slot, ops[i].s);
    SomeInUse(c[..256]);
    assert c[..256][ops[i].s] > 0;
    Opt.SumUpdate(c, 256, 1);
  }

  // ----- the tables

  /** The table is the one generated for the counts, and has a code for exactly the symbols counted. */
  ghost predicate Built(t: HuffTbl, c: seq<nat>) {
    IsTable(t) && Generated(t, c) && forall s: nat :: HasCode(t, s) <==> s < 256 && |c| == SYMBOLS && c[s] > 0
  }

  /** A code longer than 32 bits takes this many symbols, the reserved one among them. */
  const MANY := 9_227_465

  method GenTable(ghost slot: nat, c: seq<nat>) returns (ok: bool, t: HuffTbl)
    requires Countable(slot, c)
    ensures |c| == SYMBOLS && (ok <==> !Overflows(c))
    ensures ok ==> Built(t, c)
    ensures !ok ==> Opt.Sum(WithPseudo(c)) >= MANY
  {
    hide Opt.Sum, Opt.InUse, Generated, Overflows, Legal, GoodSymbols;
    var freq := new nat[SYMBOLS](i requires 0 <= i < SYMBOLS => c[i]);
    assert freq[..] == c;
    var htbl := new HuffSlot();
    ok := htbl.GenOptimalTable(freq);
    t := htbl.Table();
  }

  /** The tables built so far; the others are as they were. */
  ghost predicate BuiltSoFar(slots: set<nat>, counts: seq<seq<nat>>, did: seq<bool>, before: Tables, tables: Tables) {
    && |did| == |counts| == 8
    && forall t :: 0 <= t < 8 ==>
        if did[t] then t in slots && Built(tables[t], counts[t]) && !Overflows(counts[t]) else tables[t] == before[t]
  }

  /** A table in one of the slots cannot be built. */
  ghost predicate SomeOverflow(slots: set<nat>, counts: seq<seq<nat>>) {
    exists t :: t in slots && t < |counts| && |counts[t]| == SYMBOLS && Overflows(counts[t]) &&
        Opt.Sum(WithPseudo(counts[t])) >= MANY
  }

  /** Build a table unless it has been built already. */
  method BuildOnce(ghost slots: set<nat>, counts: seq<seq<nat>>, slot: nat, did: seq<bool>, ghost before: Tables,
                   tables: Tables)
    returns (ok: bool, did': seq<bool>, tables': Tables)
    requires slot < 8 && slot in slots && BuiltSoFar(slots, counts, did, before, tables)
    requires Countable(slot, counts[slot])
    ensures ok ==> did' == did[slot := true] && BuiltSoFar(slots, counts, did', before, tables')
    ensures !ok ==> SomeOverflow(slots, counts)
  {
    hide Built, Countable, Overflows, Opt.Sum;
    ok, did', tables' := true, did[slot := true], tables;
    if !did[slot] {
      var t;
      ok, t := GenTable(slot, counts[slot]);
      tables' := tables[slot := t];
    }
  }

  /** finish_pass_gather: build each table of the scan once, and leave the others alone. */
  method FinishPassGather(sc: Scan, counts: seq<seq<nat>>, before: Tables) returns (ok: bool, tables: Tables)
    requires IsScan(sc) && |counts| == 8 && forall t :: t in Slots(sc) ==> t < 8 && Countable(t, counts[t])
    ensures ok ==> forall t :: 0 <= t < 8 ==>
            if t in Slots(sc) then Built(tables[t], counts[t]) && !Overflows(counts[t]) else tables[t] == before[t]
    ensures !ok ==> SomeOverflow(Slots(sc), counts)
  {
    hide Built, Countable, IsOrder, Slots, Overflows, SomeOverflow;
    var did := seq(8, _ => false);
    tables := before;
    for ci := 0 to |sc.comps|
      invariant BuiltSoFar(Slots(sc), counts, did, before, tables)
      invariant forall i :: 0 <= i < ci ==> (sc.ss == 0 && sc.ah == 0 ==> did[DcSlot(sc.comps[i].dcTbl)])
      invariant forall i :: 0 <= i < ci ==> (sc.se != 0 ==> did[AcSlot(sc.comps[i].acTbl)])
    {
      SlotsOf(sc, ci);
      if sc.ss == 0 && sc.ah == 0 {
        ok, did, tables := BuildOnce(Slots(sc), counts, DcSlot(sc.comps[ci].dcTbl), did, before, tables);
        if !ok {
          return;
        }
      }
      if sc.se != 0 {
        ok, did, tables := BuildOnce(Slots(sc), counts, AcSlot(sc.comps[ci].acTbl), did, before, tables);
        if !ok {
          return;
        }
      }
    }
    ok := true;
    AllBuilt(sc, did);
  }

  lemma AllBuilt(sc: Scan, did: seq<bool>)
    requires IsScan(sc) && |did| == 8
    requires forall i :: 0 <= i < |sc.comps| ==> (sc.ss == 0 && sc.ah == 0 ==> did[DcSlot(sc.comps[i].dcTbl)])
    requires forall i :: 0 <= i < |sc.comps| ==> (sc.se != 0 ==> did[AcSlot(sc.comps[i].acTbl)])
    ensures forall t :: t in Slots(sc) ==> t < 8 && did[t]
  {
  }

  /** The symbols counted are good, so the tables pass the checks of the data pass. */
  lemma BuiltIsCodable(t: HuffTbl, slot: nat, c: seq<nat>)
    requires Built(t, c) && Countable(slot, c)
    ensures Codable(slot, t)
  {
    hide Legal;
    forall p | 0 <= p < NumSymbols(t) ensures t.vals[p] <= MaxSymbol(slot < 4) {
      assert t.vals[..NumSymbols(t)][p] == t.vals[p];
      assert HasCode(t, t.vals[p]);
    }
  }

  // ----- both passes

  /** What the statistics pass leaves. */
  ghost predicate Gathered(sc: Scan, segs: seq<Mcus>, counts: seq<seq<nat>>)
    requires IsScan(sc) && forall j :: 0 <= j < |segs| ==> AreMcus(sc, segs[j])
  {
    |counts| == 8 && forall t :: 0 <= t < 8 ==> CountsOf(AllOps(sc, segs), t, counts[t])
  }

  lemma GatheredByWriter(sc: Scan, segs: seq<Mcus>, w: HuffWriter)
    requires IsScan(sc) && forall j :: 0 <= j < |segs| ==> AreMcus(sc, segs[j])
    requires w.gather && w.Valid() && w.past + w.hist == AllOps(sc, segs)
    ensures Gathered(sc, segs, w.counts)
  {
    hide AllOps, IsScan;
  }

  /** Tables can be built from the counts of a scan with at least one MCU. */
  lemma GatheredIsCountable(sc: Scan, mcus: Mcus, counts: seq<seq<nat>>)
    requires IsScan(sc) && AllPresent(sc) && AreMcus(sc, mcus) && mcus != []
    requires ScanInRange(sc, NoPred(), sc.restartInterval, mcus)
    requires forall j :: 0 <= j < |Chunks(sc.restartInterval, mcus)| ==>
             AreMcus(sc, Chunks(sc.restartInterval, mcus)[j])
    requires |AllOps(sc, Chunks(sc.restartInterval, mcus))| < HUGE
    requires Gathered(sc, Chunks(sc.restartInterval, mcus), counts)
    ensures forall t :: t in Slots(sc) ==> t < 8 && Countable(t, counts[t])
    ensures forall op :: op in AllOps(sc, Chunks(sc.restartInterval, mcus)) ==> IsSymOf(op, Slots(sc))
  {
    hide AllOps, SegmentOps, Within, Uses, IsSymOf, Countable, CountsOf, SegInRange, ScanInRange, Chunks, Slots,
         AllPresent, IsOrder,
         SegPlan, Plan, Names;
    var segs := Chunks(sc.restartInterval, mcus);
    ChunksInRange(sc, mcus);
    forall j | 0 <= j < |segs| ensures Within(SegmentOps(sc, NoCarry(), segs[j]), Slots(sc)) {
      assert segs[j] in segs;
      WithinSegment(sc, segs[j]);
    }
    AllOpsWithin(sc, segs, Slots(sc));
    FirstChunk(sc.restartInterval, mcus);
    forall t | t in Slots(sc) ensures t < 8 && Countable(t, counts[t]) {
      SlotBound(sc, t);
      UsedInScan(sc, segs, t);
      CountsAreCountable(AllOps(sc, segs), t, Slots(sc), counts[t]);
    }
  }

  lemma SlotBound(sc: Scan, t: nat)
    requires IsScan(sc) && t in Slots(sc)
    ensures t < 8
  {
  }

  lemma UsedInScan(sc: Scan, segs: seq<Mcus>, slot: nat)
    requires IsScan(sc) && AllPresent(sc) && slot in Slots(sc) && (forall j :: 0 <= j < |segs| ==> AreMcus(sc, segs[j]))
    requires |segs| > 0 && segs[0] != []
    ensures Mentions(AllOps(sc, segs), slot)
  {
    hide AllOps, SegmentOps, Uses, Slots, AllPresent, IsScan, Names;
    UsesSegment(sc, segs[0], slot);
    PlanUses([], SegmentOps(sc, NoCarry(), segs[0]), slot);
    InAllOps(sc, segs, 0);
    var p := Plan([], SegmentOps(sc, NoCarry(), segs[0]));
    var i :| 0 <= i < |p| && Names(p[i], slot);
    assert p[i] in SegPlan(sc, segs[0]);
    var k :| 0 <= k < |AllOps(sc, segs)| && AllOps(sc, segs)[k] == p[i];
  }

  /** With the tables built from its counts, every symbol of the scan has a code. */
  lemma BuiltCovers(sc: Scan, segs: seq<Mcus>, counts: seq<seq<nat>>, tables: Tables)
    requires IsScan(sc) && (forall j :: 0 <= j < |segs| ==> AreMcus(sc, segs[j])) && Gathered(sc, segs, counts)
    requires forall t :: 0 <= t < 8 && t in Slots(sc) ==> Built(tables[t], counts[t])
    requires forall op :: op in AllOps(sc, segs) ==> IsSymOf(op, Slots(sc))
    ensures AllCovered(sc, tables, segs)
  {
    hide AllOps, SegmentOps, IsScan, Slots, HasCode, Plan, Built, CountsOf, IsSymOf, Gathered, OpHasCode, Covered;
    forall j | 0 <= j < |segs| ensures Covered(tables, SegmentOps(sc, NoCarry(), segs[j])) {
      InAllOps(sc, segs, j);
      var p := SegPlan(sc, segs[j]);
      forall i | 0 <= i < |p| ensures OpHasCode(tables, p[i]) {
        assert p[i] in p;
        OpCovered(sc, segs, counts, tables, p[i]);
      }
      CodedOps(tables, p, SegmentOps(sc, NoCarry(), segs[j]));
    }
  }

  lemma OpCovered(sc: Scan, segs: seq<Mcus>, counts: seq<seq<nat>>, tables: Tables, op: Op)
    requires IsScan(sc) && (forall j :: 0 <= j < |segs| ==> AreMcus(sc, segs[j])) && Gathered(sc, segs, counts)
    requires forall t :: 0 <= t < 8 && t in Slots(sc) ==> Built(tables[t], counts[t])
    requires op in AllOps(sc, segs) && IsSymOf(op, Slots(sc))
    ensures OpHasCode(tables, op)
  {
    hide AllOps, IsScan, Slots, HasCode, Generated, IsTable;
    if op.Sym? {
      SlotBoundOf(sc, op.tbl);
      assert op == Sym(op.tbl, op.s);
      assert counts[op.tbl][op.s] > 0;
    }
  }

  lemma SlotBoundOf(sc: Scan, t: nat)
    requires IsScan(sc)
    ensures t in Slots(sc) ==> t < 8
  {
  }

  /** The counts are those of the scan's symbols. */
  lemma GatheredCounts(sc: Scan, segs: seq<Mcus>, counts: seq<seq<nat>>, t: nat)
    requires IsScan(sc) && (forall j :: 0 <= j < |segs| ==> AreMcus(sc, segs[j])) && Gathered(sc, segs, counts) && t < 8
    ensures |counts| == 8 && counts[t] == CountSeq(AllOps(sc, segs), t)
  {
    hide AllOps, IsScan;
    assert CountsOf(AllOps(sc, segs), t, counts[t]);
  }

  /** Some table of the scan cannot be built: an optimal code for the symbols counted is longer than 32 bits. */
  ghost predicate CannotBuild(sc: Scan, segs: seq<Mcus>)
    requires IsScan(sc) && forall j :: 0 <= j < |segs| ==> AreMcus(sc, segs[j])
  {
    exists t :: t in Slots(sc) && Overflows(CountSeq(AllOps(sc, segs), t))
  }

  lemma CannotBuildScan(sc: Scan, segs: seq<Mcus>, counts: seq<seq<nat>>)
    requires IsScan(sc) && (forall j :: 0 <= j < |segs| ==> AreMcus(sc, segs[j])) && Gathered(sc, segs, counts)
    requires (forall t :: t in Slots(sc) ==> t < 8) && SomeOverflow(Slots(sc), counts)
    ensures CannotBuild(sc, segs) && |AllOps(sc, segs)| + 1 >= MANY
  {
    hide AllOps, IsScan, Slots, Overflows, Opt.Sum, CountsOf, Gathered;
    var t :| t in Slots(sc) && t < |counts| && |counts[t]| == SYMBOLS && Overflows(counts[t]) &&
        Opt.Sum(WithPseudo(counts[t])) >= MANY;
    GatheredCounts(sc, segs, counts, t);
    CountSum(AllOps(sc, segs), t, counts[t]);
    Opt.SumUpdate(counts[t], 256, 1);
  }

  lemma AllBuildable(sc: Scan, segs: seq<Mcus>, counts: seq<seq<nat>>, tables: Tables)
    requires IsScan(sc) && (forall j :: 0 <= j < |segs| ==> AreMcus(sc, segs[j])) && Gathered(sc, segs, counts)
    requires |counts| == 8 && forall t :: t in Slots(sc) ==>
             t < 8 && Built(tables[t], counts[t]) && !Overflows(counts[t])
    ensures !CannotBuild(sc, segs) && OptimalTables(sc, segs, tables)
  {
    hide AllOps, IsScan, Slots, Overflows, CountsOf, Gathered, Built;
    forall t | t in Slots(sc)
      ensures t < 8 && Built(tables[t], CountSeq(AllOps(sc, segs), t)) && !Overflows(CountSeq(AllOps(sc, segs), t))
    {
      GatheredCounts(sc, segs, counts, t);
    }
  }

  /** The tables of the scan are the optimal ones for the symbols in it. */
  ghost predicate OptimalTables(sc: Scan, segs: seq<Mcus>, tables: Tables)
    requires IsScan(sc) && forall j :: 0 <= j < |segs| ==> AreMcus(sc, segs[j])
  {
    forall t :: t in Slots(sc) ==> t < 8 && Built(tables[t], CountSeq(AllOps(sc, segs), t))
  }

  /** How an optimised scan ends: JERR_BAD_DCT_COEF and JERR_HUFF_CLEN_OVERFLOW are fatal. */
  datatype Outcome = Written(tables: Tables, bytes: seq<byte>) | BadCoefs | LengthOverflow

  /** Gather statistics, build the tables, and write the data: no symbol is ever without a code. */
  method OptimizedScan(sc: Scan, mcus: Mcus, before: Tables) returns (r: Outcome, ghost datas: seq<seq<byte>>)
    requires IsScan(sc) && AllPresent(sc) && AreMcus(sc, mcus) && mcus != []
    requires forall j :: 0 <= j < |Chunks(sc.restartInterval, mcus)| ==>
             AreMcus(sc, Chunks(sc.restartInterval, mcus)[j])
    requires |AllOps(sc, Chunks(sc.restartInterval, mcus))| < HUGE
    ensures r.BadCoefs? <==> !ScanInRange(sc, NoPred(), sc.restartInterval, mcus)
    ensures r.LengthOverflow? <==> !r.BadCoefs? && CannotBuild(sc, Chunks(sc.restartInterval, mcus))
    ensures r.LengthOverflow? ==> |AllOps(sc, Chunks(sc.restartInterval, mcus))| + 1 >= MANY
    ensures r.Written? ==>
              var segs := Chunks(sc.restartInterval, mcus);
              && OptimalTables(sc, segs, r.tables)
              && (forall t :: 0 <= t < 8 && t !in Slots(sc) ==> r.tables[t] == before[t])
              && AllCovered(sc, r.tables, segs) && Acceptable(sc, r.tables)
              && CodedScan(sc, r.tables, mcus, r.bytes, datas)
  {
    hide AllOps, SegmentOps, IsScan, Slots, AllCovered, Coded, Wire, Stuff, ScanInRange, Chunks, HuffWriter.Valid,
         Derived, IsTable,
         Countable, Built, IsSymOf, Gathered, AllPresent, CannotBuild, SomeOverflow, OptimalTables, Overflows,
             Acceptable;
    datas := [];
    var st, e := CodeScan(sc, true, before, [], mcus);
    if !st.Fine? {
      return BadCoefs, datas;
    }
    ghost var segs := Chunks(sc.restartInterval, mcus);
    var counts := e.w.counts;
    GatheredByWriter(sc, segs, e.w);
    GatheredIsCountable(sc, mcus, counts);
    CountsLength(sc, segs, counts);
    var ok, tables := FinishPassGather(sc, counts, before);
    if !ok {
      CannotBuildScan(sc, segs, counts);
      return LengthOverflow, datas;
    }
    AllBuildable(sc, segs, counts, tables);
    BuiltCovers(sc, segs, counts, tables);
    AllGood(sc, counts, tables);
    var derived;
    ok, derived := DeriveTables(sc, tables);
    UsedCovered(sc, tables, mcus);
    st, e := CodeScan(sc, false, Used(sc, tables), derived, mcus);
    UsedCodes(sc, tables, mcus, e.w.out, e.datas);
    r, datas := Written(tables, e.w.out), e.datas;
  }

  lemma CountsLength(sc: Scan, segs: seq<Mcus>, counts: seq<seq<nat>>)
    requires IsScan(sc) && (forall j :: 0 <= j < |segs| ==> AreMcus(sc, segs[j])) && Gathered(sc, segs, counts)
    ensures |counts| == 8
  {
  }

  lemma AllGood(sc: Scan, counts: seq<seq<nat>>, tables: Tables)
    requires IsScan(sc) && |counts| == 8
    requires forall t :: t in Slots(sc) ==> t < 8 && Countable(t, counts[t]) && Built(tables[t], counts[t])
    ensures Acceptable(sc, tables)
  {
    hide Slots, Countable, IsScan, Built, Codable;
    forall t | t in Slots(sc) ensures t < 8 && Codable(t, tables[t]) {
      BuiltIsCodable(tables[t], t, counts[t]);
    }
  }
}
