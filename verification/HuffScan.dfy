// What a Huffman-coded scan says: its parameters, the ops of each MCU in the five coding modes, and of a
// segment between restarts.
module HuffScan {
  import opened Powers
  import opened Coefs
  import opened Segments
  import opened HuffCode
  import opened HuffTables
  import opened HuffBits
  import opened HuffBlock
  import opened HuffSpectral
  import opened HuffRefine

  /** What the scan header and the tables fix. In sequential mode the band is 0 to se (lim_Se). */
  datatype Scan = Scan(progressive: bool, comps: seq<Component>, membership: seq<nat>,
                       ss: nat, se: nat, ah: nat, al: nat, order: seq<nat>, restartInterval: nat)

  datatype Mode = Sequential | DcFirst | AcFirst | DcRefine | AcRefine

  /** start_pass chooses the coding mode. */
  function ModeOf(sc: Scan): Mode {
    if !sc.progressive then Sequential
    else if sc.ah == 0 then (if sc.ss == 0 then DcFirst else AcFirst)
    else if sc.ss == 0 then DcRefine else AcRefine
  }

  /** The parameters the scan validation and start_pass let through. */
  ghost predicate IsScan(sc: Scan) {
    && 0 < |sc.comps| <= MAX_COMPS_IN_SCAN && |sc.membership| > 0
    && (forall i :: 0 <= i < |sc.comps| ==> sc.comps[i].dcTbl < NUM_HUFF_TBLS && sc.comps[i].acTbl < NUM_HUFF_TBLS)
    && (forall i :: 0 <= i < |sc.membership| ==> sc.membership[i] < |sc.comps|)
    && sc.se < 64 && IsOrder(sc.order) && sc.al <= 13
    && (if !sc.progressive then sc.ss == 0 && sc.ah == 0 && sc.al == 0
        else
          && (if sc.ss == 0 then sc.se == 0 else sc.ss <= sc.se && |sc.comps| == 1 && |sc.membership| == 1)
          && (sc.ah != 0 ==> sc.ah == sc.al + 1))
  }

  ghost predicate AreMcus(sc: Scan, mcus: seq<Mcu>) {
    forall i :: 0 <= i < |mcus| ==> |mcus[i]| == |sc.membership|
  }

  // ----- blocks

  /** (*block)[natural_order[k]]. */
  function Coef(sc: Scan, b: Block, k: nat): JCOEF
    requires IsScan(sc) && k <= sc.se
  {
    b[sc.order[k]]
  }

  /** The coefficients of a block in zigzag order, after the point transform of AC coefficients. */
  function Zigzag(sc: Scan, b: Block): (zz: Zz)
    requires IsScan(sc)
    ensures |zz| == sc.se + 1
  {
    seq(sc.se + 1, k requires 0 <= k <= sc.se => if sc.progressive then ShiftDown(Coef(sc, b, k),
        sc.al) else Coef(sc, b, k))
  }

  /** The DC value after the point transform, an arithmetic right shift. */
  function DcShift(sc: Scan, b: Block): int {
    b[0] / Pow2(sc.al)
  }

  ghost predicate IsPred(p: seq<int>) {
    |p| == MAX_COMPS_IN_SCAN && forall i :: 0 <= i < |p| ==> -0x8000 <= p[i] < 0x8000
  }

  function NoPred(): seq<int> { [0, 0, 0, 0] }

  /** The last DC values after block i of an MCU. */
  function NextPred(sc: Scan, p: seq<int>, i: nat, b: Block): (r: seq<int>)
    requires IsScan(sc) && IsPred(p) && i < |sc.membership|
    ensures IsPred(r)
  {
    if ModeOf(sc).DcRefine? then p
    else
      ShiftInRange(b[0], sc.al);
      p[sc.membership[i] := DcShift(sc, b)]
  }

  lemma ShiftInRange(v: int, al: nat)
    requires -0x8000 <= v < 0x8000
    ensures -0x8000 <= v / Pow2(al) < 0x8000
  {
    var q, r, p := v / Pow2(al), v % Pow2(al), Pow2(al);
    assert v == q * p + r;
    CompareQuotient(q, r, p, 0x8000);
    CompareQuotient(q, r, p, -0x8000);
    MulMonotone(1, p, 0x8000);
  }

  /** The ops of block i of an MCU in the modes that code block after block. */
  ghost function BlockOps(sc: Scan, p: seq<int>, i: nat, b: Block, next: Ops): Ops
    requires IsScan(sc) && IsPred(p) && i < |sc.membership|
  {
    var ci := sc.membership[i];
    match ModeOf(sc)
    case Sequential =>
      DcOps(sc.comps[ci].dcTbl, b[0] - p[ci], AcOps(sc.comps[ci].acTbl, Zigzag(sc, b), 1, 0, next))
    case DcFirst => DcOps(sc.comps[ci].dcTbl, DcShift(sc, b) - p[ci], next)
    case _ => Then(Raw(DcShift(sc, b), 1), next)
  }

  ghost function McuOps(sc: Scan, p: seq<int>, mcu: Mcu, i: nat, next: Ops): Ops
    requires IsScan(sc) && IsPred(p) && |mcu| == |sc.membership| && i <= |mcu|
    decreases |mcu| - i
  {
    if i == |mcu| then next
    else BlockOps(sc, p, i, mcu[i], McuOps(sc, NextPred(sc, p, i, mcu[i]), mcu, i + 1, next))
  }

  function McuPred(sc: Scan, p: seq<int>, mcu: Mcu, i: nat): (r: seq<int>)
    requires IsScan(sc) && IsPred(p) && |mcu| == |sc.membership| && i <= |mcu|
    ensures IsPred(r)
    decreases |mcu| - i
  {
    if i == |mcu| then p else McuPred(sc, NextPred(sc, p, i, mcu[i]), mcu, i + 1)
  }

  /** The predictions after an MCU; scans of AC coefficients leave them alone. */
  function PredAfter(sc: Scan, p: seq<int>, mcu: Mcu): (r: seq<int>)
    requires IsScan(sc) && IsPred(p) && |mcu| == |sc.membership|
    ensures IsPred(r)
  {
    if ModeOf(sc).AcFirst? || ModeOf(sc).AcRefine? then p else McuPred(sc, p, mcu, 0)
  }

  // ----- segments

  /** The bands of the only block of each MCU of an AC scan. */
  function Bands(sc: Scan, mcus: seq<Mcu>): (r: seq<Zz>)
    requires IsScan(sc) && AreMcus(sc, mcus)
    ensures |r| == |mcus| && forall z :: z in r ==> |z| == sc.se + 1
  {
    seq(|mcus|, i requires 0 <= i < |mcus| => Zigzag(sc, mcus[i][0]))
  }

  /** What an encoder carries from one MCU to the next: last DC values, and the end-of-band run and
      correction bits it has not yet written. */
  datatype Carry = Carry(pred: seq<int>, run: nat, corr: seq<bool>)

  function NoCarry(): Carry { Carry(NoPred(), 0, []) }

  ghost function DcSegment(sc: Scan, p: seq<int>, mcus: seq<Mcu>): Ops
    requires IsScan(sc) && IsPred(p) && AreMcus(sc, mcus)
    decreases |mcus|
  {
    if mcus == [] then Done else McuOps(sc, p, mcus[0], 0, DcSegment(sc, McuPred(sc, p, mcus[0], 0), mcus[1..]))
  }

  /** The ops that an encoder with carry c writes for the rest of its segment. */
  ghost function SegmentOps(sc: Scan, c: Carry, mcus: seq<Mcu>): Ops
    requires IsScan(sc) && IsPred(c.pred) && AreMcus(sc, mcus)
  {
    match ModeOf(sc)
    case AcFirst => FirstSegment(sc.comps[0].acTbl, sc.ss, Bands(sc, mcus), c.run)
    case AcRefine => RefineSegment(sc.comps[0].acTbl, sc.ss, Bands(sc, mcus), c.run, c.corr)
    case _ => DcSegment(sc, c.pred, mcus)
  }

  // ----- what an encoder rejects

  /** Every coefficient of block i has a magnitude category the encoder accepts. */
  ghost predicate BlockInRange(sc: Scan, p: seq<int>, i: nat, b: Block)
    requires IsScan(sc) && IsPred(p) && i < |sc.membership|
  {
    match ModeOf(sc)
    case Sequential => DcInRange(b[0] - p[sc.membership[i]]) && AcInRange(Zigzag(sc, b), 1)
    case DcFirst => DcInRange(DcShift(sc, b) - p[sc.membership[i]])
    case AcFirst => AcInRange(Zigzag(sc, b), sc.ss)
    case _ => true
  }

  ghost predicate McuInRange(sc: Scan, p: seq<int>, mcu: Mcu, i: nat)
    requires IsScan(sc) && IsPred(p) && |mcu| == |sc.membership| && i <= |mcu|
    decreases |mcu| - i
  {
    i < |mcu| ==> BlockInRange(sc, p, i, mcu[i]) && McuInRange(sc, NextPred(sc, p, i, mcu[i]), mcu, i + 1)
  }
}
