// A whole progressive image: its scans sent with optimised tables one after another, and consumed into the
// decoder's coefficient arrays.
module HuffProgression {
  import opened Coefs
  import opened Powers
  import opened Digits
  import opened Segments
  import opened Geometry
  import opened McuLayout
  import opened BufferedController
  import opened CoefPlaces
  import opened ScanScript
  import opened HuffBits
  import opened HuffScan
  import opened HuffMerge
  import opened HuffSlots
  import opened HuffTwoPass
  import opened HuffRoundTrip
  import SL = ScriptLaws
  import SP = SimpleProgression
  import HT = HuffTables
  import HE = HuffEncoder
  import HES = HuffEncodeScan
  import HD = HuffDecoder
  import HR = HuffReader
  import HSD = HuffScanDecoder
  import DS = HuffDecodeScan
  import RT = HuffScanRoundTrip

  // ----- what the arrays hold between scans

  function Original(im: Image, p: Place): Block
    requires p.comp < |im.frame.comps|
  {
    Real(im, p.comp, p.row, p.col)
  }

  /** Coefficient k, once scans have brought it down to bit position al, or before its first scan. */
  function Reached(v: JCOEF, k: nat, al: int): int {
    if al < 0 then 0 else Approx(v, k, al)
  }

  ghost predicate BlockReached(order: seq<nat>, b: Block, orig: Block, script: Script, c: int) {
    IsOrder(order) && forall k :: 0 <= k < 64 ==> b[order[k]] == Reached(orig[order[k]], k, LastAl(script, c, k))
  }

  /** Every block of the image holds what the scans of the script say of it. */
  ghost predicate Progressed(im: Image, order: seq<nat>, arrays: seq<array2<Block>>, script: Script)
    reads arrays
  {
    forall p :: IsReal(im.frame, p) ==>
      InArrays(arrays, p) && BlockReached(order, Look(arrays, p), Original(im, p), script, p.comp)
  }

  // ----- one scan of the script

  /** The scan of a script entry: its parameters, components and MCU layout. */
  ghost predicate IsPass(f: Frame, order: seq<nat>, s: ScanInfo, sg: ScanGeom, sc: Scan) {
    && IsScanGeom(f, sg) && IsScan(sc) && sc.progressive && sc.order == order && sc.membership == sg.membership
    && |s.comps| == |sg.comps| == |sc.comps| && (forall i :: 0 <= i < |s.comps| ==> sg.comps[i].index == s.comps[i])
    && sc.ss == s.ss && sc.se == s.se && sc.ah == s.ah && sc.al == s.al
  }

  /** Before the scan the block has the precision the scan starts from, and after it that of the longer script. */
  lemma BlockStep(order: seq<nat>, script: Script, s: ScanInfo, sc: Scan, b0: Block, b: Block, orig: Block, c: int)
    requires BlockReached(order, b0, orig, script, c) && MayScan(script, s, c) && c in s.comps
    requires IsScan(sc) && sc.progressive && sc.order == order
    requires sc.ss == s.ss && sc.se == s.se && sc.ah == s.ah && sc.al == s.al
    ensures Before(sc, b0, orig)
    ensures Improved(sc, 64, b0, b, orig) ==> BlockReached(order, b, orig, script + [s], c)
  {
    hide IsOrder, LastAl, Approx;
    forall k: int ensures LastAl(script + [s], c, k) == if s.ss <= k <= s.se then s.al else LastAl(script, c, k) {
      SL.OneMoreScan(script, s, c, k);
    }
  }

  lemma BlockSkipped(order: seq<nat>, script: Script, s: ScanInfo, b: Block, orig: Block, c: int)
    requires BlockReached(order, b, orig, script, c) && c !in s.comps
    ensures BlockReached(order, b, orig, script + [s], c)
  {
    hide IsOrder, LastAl, Reached;
    forall k: int ensures LastAl(script + [s], c, k) == LastAl(script, c, k) {
      SL.OneMoreScan(script, s, c, k);
    }
  }

  /** The places of the blocks that the scan codes. */
  predicate InScan(sg: ScanGeom, p: Place)
    requires Distinct(sg)
  {
    var ci := CompIn(sg.comps, p.comp);
    ci < |sg.comps| && p.row / sg.comps[ci].mcuHeight < sg.mcuRows && p.col / sg.comps[ci].mcuWidth < sg.mcusPerRow
  }

  /** Those in MCUs before the one in row r and column m. */
  predicate Done(sg: ScanGeom, r: nat, m: nat, p: Place)
    requires Distinct(sg)
  {
    InScan(sg, p) &&
    var sc := sg.comps[CompIn(sg.comps, p.comp)];
    p.row / sc.mcuHeight < r || (p.row / sc.mcuHeight == r && p.col / sc.mcuWidth < m)
  }

  // ----- consuming a scan

  method FetchMcu(arrays: seq<array2<Block>>, places: seq<Place>) returns (blocks: seq<Block>)
    requires forall b :: 0 <= b < |places| ==> InArrays(arrays, places[b])
    ensures |blocks| == |places| && forall b :: 0 <= b < |places| ==> blocks[b] == Look(arrays, places[b])
  {
    blocks := [];
    for b := 0 to |places|
      invariant |blocks| == b && forall i :: 0 <= i < b ==> blocks[i] == Look(arrays, places[i])
    {
      blocks := blocks + [arrays[places[b].comp][places[b].row, places[b].col]];
    }
  }

  method StoreBlock(im: Image, arrays: seq<array2<Block>>, q: Place, block: Block)
    requires AreArrays(im, arrays) && InArrays(arrays, q)
    modifies arrays
    ensures forall p :: InArrays(arrays, p) ==> Look(arrays, p) == if p == q then block else old(Look(arrays, p))
  {
    hide IsFrame, RoundUp;
    arrays[q.comp][q.row, q.col] := block;
  }

  /** No two blocks of an MCU have the same place. */
  lemma OwnPlace(sg: ScanGeom, r: nat, m: nat, i: nat, b: nat)
    requires Distinct(sg) && i < b < |McuPlaces(sg, r, m)|
    ensures McuPlaces(sg, r, m)[i] != McuPlaces(sg, r, m)[b]
  {
    hide Distinct, InMcu, CompPlaces, BlockNo;
    BlockIsIn(sg, r, m, |sg.comps|, i);
    BlockIsIn(sg, r, m, |sg.comps|, b);
  }

  method StoreMcu(im: Image, arrays: seq<array2<Block>>, sg: ScanGeom, r: nat, m: nat, blocks: seq<Block>)
    requires AreArrays(im, arrays) && IsScanGeom(im.frame, sg) && Distinct(sg) && r < sg.mcuRows && m < sg.mcusPerRow
    requires |blocks| == |McuPlaces(sg, r, m)|
    modifies arrays
    ensures forall b :: 0 <= b < |blocks| ==>
              InArrays(arrays, McuPlaces(sg, r, m)[b]) && Look(arrays, McuPlaces(sg, r, m)[b]) == blocks[b]
    ensures forall p :: InArrays(arrays, p) && !InMcu(sg, r, m, |sg.comps|, p) ==>
              Look(arrays, p) == old(Look(arrays, p))
  {
    hide IsScanGeom, AreArrays, CompPlaces, Distinct, InMcu, Look, InArrays, BlockNo, CompIn;
    var places := McuPlaces(sg, r, m);
    for b := 0 to |places|
      invariant forall i :: 0 <= i < b ==> InArrays(arrays, places[i]) && Look(arrays, places[i]) == blocks[i]
      invariant forall p :: InArrays(arrays, p) && !InMcu(sg, r, m, |sg.comps|, p) ==>
                  Look(arrays, p) == old(Look(arrays, p))
    {
      BlockIsIn(sg, r, m, |sg.comps|, b);
      HasRoom(im, arrays, sg, r, m, places[b]);
      forall i | 0 <= i < b ensures places[i] != places[b] {
        OwnPlace(sg, r, m, i, b);
      }
      StoreBlock(im, arrays, places[b], blocks[b]);
    }
  }

  /** All coefficients of every block are wanted. */
  function Wanted(sc: Scan): seq<nat> {
    seq(|sc.membership|, _ => 64)
  }

  /** The block the encoder has at the place, real or dummy. */
  function Sent(im: Image, p: Place): Block
    requires NotEmpty(im.frame, p.comp)
  {
    Padded(im, p.comp, p.row, p.col)
  }

  /** The arrays hold what the scan starts from. */
  ghost predicate CanStart(im: Image, arrays: seq<array2<Block>>, sg: ScanGeom, sc: Scan, p: Place)
    reads arrays
  {
    InArrays(arrays, p) && NotEmpty(im.frame, p.comp) && IsScan(sc) && MayStart(sc, Look(arrays, p), Sent(im, p))
  }

  ghost predicate Got(im: Image, sc: Scan, p: Place, was: Block, now: Block) {
    IsScan(sc) && NotEmpty(im.frame, p.comp) && Improved(sc, 64, was, now, Sent(im, p))
  }

  lemma McuReady(im: Image, sc: Scan, places: seq<Place>, before: seq<Block>, mcu: Mcu)
    requires Shown(im, places, mcu) && |before| == |places| && IsScan(sc)
    requires forall b :: 0 <= b < |places| ==>
             NotEmpty(im.frame, places[b].comp) && MayStart(sc, before[b], Sent(im, places[b]))
    ensures BlocksBefore(sc, before, mcu)
  {
    hide MayStart, NotEmpty, IsScan, Padded;
  }

  lemma McuGot(im: Image, sc: Scan, places: seq<Place>, before: seq<Block>, after: seq<Block>, mcu: Mcu)
    requires Shown(im, places, mcu) && IsScan(sc) && BlocksAfter(sc, Wanted(sc), before, after, mcu)
    ensures |places| == |before| == |after| == |mcu|
    ensures forall b :: 0 <= b < |places| ==> Got(im, sc, places[b], before[b], after[b])
  {
    hide Improved, NotEmpty, IsScan, Padded;
  }

  /** One MCU of consume_data: its blocks are decoded where they stand. */
  method ConsumeMcu(im: Image, arrays: seq<array2<Block>>, sg: ScanGeom, r: nat, m: nat, d: HSD.HuffScanDecoder,
                    pieces: seq<nat>, ghost co: DS.Course, ghost j: nat, ghost p: seq<int>, ghost rem: Mcus,
                    ghost tail: seq<bool>, ghost left: Mcus, ghost toGo: nat)
    returns (pieces': seq<nat>, ghost j': nat, ghost p': seq<int>, ghost rem': Mcus, ghost tail': seq<bool>,
             ghost toGo': nat)
    requires AreArrays(im, arrays) && IsScanGeom(im.frame, sg) && Distinct(sg) && r < sg.mcuRows && m < sg.mcusPerRow
    requires InImage(im.frame, sg) && d.sc.membership == sg.membership && d.limits == Wanted(d.sc)
    requires DS.IsCourse(d.sc, d.ts, d.limits, co) && ChunksFit(d.sc.restartInterval, co.chunks)
    requires DS.Between(d, co, j, p, rem, tail, left, toGo) && left != [] && left[0] == McuAt(im, sg, r, m)
    requires forall q :: InMcu(sg, r, m, |sg.comps|, q) ==> CanStart(im, arrays, sg, d.sc, q)
    modifies arrays, d`lastDc, d`eobrun, d`restartsToGo, d`nextRestartNum, d.br
    ensures DS.Between(d, co, j', p', rem', tail', left[1..], toGo')
    ensures forall q :: InArrays(arrays, q) ==>
              if InMcu(sg, r, m, |sg.comps|, q) then Got(im, d.sc, q, old(Look(arrays, q)), Look(arrays, q))
              else Look(arrays, q) == old(Look(arrays, q))
  {
    hide IsScanGeom, AreArrays, CompPlaces, Distinct, InMcu, Look, InArrays, BlockNo, CompIn, InImage, DS.Between,
         DS.IsCourse, ChunksFit, CompBlocks, Sent, MayStart, BlocksBefore, BlocksAfter, IsScan, Shown, Got, NotEmpty;
    var places := McuPlaces(sg, r, m);
    CompShown(im, sg, r, m, |sg.comps|);
    DS.BetweenFacts(d, co, j, p, rem, tail, left, toGo);
    forall b | 0 <= b < |places| ensures CanStart(im, arrays, sg, d.sc, places[b]) {
      BlockIsIn(sg, r, m, |sg.comps|, b);
    }
    var before := FetchMcu(arrays, places);
    McuSize(im, sg);
    McuReady(im, d.sc, places, before, left[0]);
    var after;
    after, pieces', j', p', rem', tail', toGo' := DS.DecodeNext(d, before, pieces, co, j, p, rem, tail, left, toGo);
    McuGot(im, d.sc, places, before, after, left[0]);
    StoreMcu(im, arrays, sg, r, m, after);
    forall q | InArrays(arrays, q) && InMcu(sg, r, m, |sg.comps|, q)
      ensures Got(im, d.sc, q, old(Look(arrays, q)), Look(arrays, q))
    {
      PlaceIs(sg, r, m, q);
    }
  }

  lemma McuSize(im: Image, sg: ScanGeom)
    requires IsScanGeom(im.frame, sg)
    ensures |sg.membership| == McuBlocks(sg.comps, |sg.comps|)
  {
  }

  lemma DoneNow(im: Image, sg: ScanGeom, r: nat, m: nat, p: Place)
    requires IsScanGeom(im.frame, sg) && Distinct(sg) && r < sg.mcuRows && m < sg.mcusPerRow
    ensures InMcu(sg, r, m, |sg.comps|, p) ==> InScan(sg, p) && !Done(sg, r, m, p)
    ensures Done(sg, r, m + 1, p) <==> Done(sg, r, m, p) || InMcu(sg, r, m, |sg.comps|, p)
    ensures m + 1 == sg.mcusPerRow ==> (Done(sg, r + 1, 0, p) <==> Done(sg, r, m + 1, p))
  {
    hide IsScanGeom, CompIn;
  }

  lemma DoneAtEnds(sg: ScanGeom, p: Place)
    requires Distinct(sg)
    ensures !Done(sg, 0, 0, p) && (Done(sg, sg.mcuRows, 0, p) <==> InScan(sg, p))
  {
    hide CompIn;
    if CompIn(sg.comps, p.comp) < |sg.comps| {
      NotNegative(p.row, sg.comps[CompIn(sg.comps, p.comp)].mcuHeight);
      NotNegative(p.col, sg.comps[CompIn(sg.comps, p.comp)].mcuWidth);
    }
  }

  lemma NotNegative(x: nat, h: nat)
    requires h > 0
    ensures x / h >= 0
  {
  }

  lemma NextMcu(im: Image, sg: ScanGeom, mcus: Mcus, r: nat, m: nat, i: nat)
    requires InImage(im.frame, sg) && mcus == ScanMcus(im, sg) && r < sg.mcuRows && m < sg.mcusPerRow
    requires i == r * sg.mcusPerRow + m
    ensures i < |mcus| && mcus[i..] != [] && mcus[i..][0] == McuAt(im, sg, r, m) && mcus[i..][1..] == mcus[i + 1..]
    ensures m + 1 == sg.mcusPerRow ==> i + 1 == (r + 1) * sg.mcusPerRow + 0
  {
    hide McuAt, Rows;
    RowsAt(im, sg, sg.mcuRows, r, m);
    MulAdd(r, 1, sg.mcusPerRow);
  }

  lemma HasMcus(im: Image, sg: ScanGeom)
    requires IsScanGeom(im.frame, sg)
    ensures sg.mcusPerRow > 0 && sg.mcuRows > 0 && InImage(im.frame, sg)
  {
    hide IsFrame;
    ScanInImage(im.frame, sg);
    CompFacts(im.frame, sg, 0);
  }

  lemma CourseSizes(sc: Scan, co: DS.Course, mcus: Mcus)
    requires DS.CourseOf(sc, co, mcus)
    ensures |co.datas| > 0 && ChunksFit(sc.restartInterval, co.chunks)
  {
  }

  lemma ReadsNothing(d: HSD.HuffScanDecoder, co: DS.Course, mcus: Mcus) returns (tail: seq<bool>)
    requires DS.IsCourse(d.sc, d.ts, d.limits, co) && DS.CourseOf(d.sc, co, mcus) && d.Valid()
    requires d.br.src == Coming(DS.SegOf(co, 0), 0)
    requires d.State() == HD.DecState(NoPred(), 0, HR.SegBits(d.br.src, 0))
    requires d.br.savedPos == 0 && d.br.unreadMarker == 0 && !d.br.insufficientData && d.nextRestartNum == 0
    requires d.restartsToGo == d.sc.restartInterval
    ensures DS.Between(d, co, 0, NoPred(), co.chunks[0], tail, mcus, d.sc.restartInterval)
  {
    hide IsScan, HE.Coded, HD.GoodTables, HES.ScanInRange, Coming, HR.SegBits, HSD.HuffScanDecoder.Valid, DS.Between,
         ChunksFit, Join, AreMcus;
    tail := DS.AtStart(d, co, mcus);
  }

  /** consume_data for a whole scan: MCU row by MCU row, each block is decoded in its place in the arrays. */
  method ConsumeScan(im: Image, arrays: seq<array2<Block>>, sg: ScanGeom, sc: Scan, ts: Tables, ds: seq<HT.DDerived>,
                     bytes: seq<byte>, pieces: seq<nat>, ghost co: DS.Course)
    requires AreArrays(im, arrays) && IsScanGeom(im.frame, sg) && Distinct(sg) && InImage(im.frame, sg)
    requires sc.membership == sg.membership
    requires DS.IsCourse(sc, ts, Wanted(sc), co) && HD.DecodesWith(ts, ds) && DS.CourseOf(sc, co, ScanMcus(im, sg))
    requires bytes == Coming(DS.SegOf(co, 0), 0)
    requires forall p :: InScan(sg, p) ==> CanStart(im, arrays, sg, sc, p)
    modifies arrays
    ensures forall p :: InArrays(arrays, p) ==>
              if InScan(sg, p) then Got(im, sc, p, old(Look(arrays, p)), Look(arrays, p))
              else Look(arrays, p) == old(Look(arrays, p))
  {
    hide IsScanGeom, AreArrays, Distinct, InMcu, Look, InArrays, InImage, DS.Between, DS.IsCourse, DS.CourseOf, Got,
         MayStart, ChunksFit, CompBlocks, Sent, IsScan, HD.DecodesWith, Coming, DS.SegOf, Done, InScan, NotEmpty, Rows,
         HSD.HuffScanDecoder.Valid, HD.GoodTables;
    HasMcus(im, sg);
    DS.CourseFacts(sc, ts, Wanted(sc), co);
    CourseSizes(sc, co, ScanMcus(im, sg));
    var d := new HSD.HuffScanDecoder(sc, ts, ds, Wanted(sc), bytes);
    ghost var mcus := ScanMcus(im, sg);
    ghost var tail := ReadsNothing(d, co, mcus);
    ghost var j, q, rem, toGo, i := 0, NoPred(), co.chunks[0], sc.restartInterval, 0;
    var waiting, r: nat, m: nat := pieces, 0, 0;
    assert mcus[0..] == mcus;
    forall p { DoneAtEnds(sg, p); }
    while r < sg.mcuRows
      invariant r <= sg.mcuRows && m < sg.mcusPerRow && (r == sg.mcuRows ==> m == 0) && i == r * sg.mcusPerRow + m
      invariant fresh(d) && fresh(d.br) && d.sc == sc && d.ts == ts && d.limits == Wanted(sc)
      invariant i <= |mcus| && DS.Between(d, co, j, q, rem, tail, mcus[i..], toGo)
      invariant forall p :: InArrays(arrays, p) ==>
                  if Done(sg, r, m, p) then Got(im, sc, p, old(Look(arrays, p)), Look(arrays, p))
                  else Look(arrays, p) == old(Look(arrays, p))
      decreases sg.mcuRows - r, sg.mcusPerRow - m
    {
      NextMcu(im, sg, mcus, r, m, i);
      forall p { DoneNow(im, sg, r, m, p); }
      waiting, j, q, rem, tail, toGo := ConsumeMcu(im, arrays, sg, r, m, d, waiting, co, j, q, rem, tail, mcus[i..],
          toGo);
      i, m := i + 1, m + 1;
      if m == sg.mcusPerRow {
        r, m := r + 1, 0;
      }
    }
  }

  // ----- a pass: one scan coded with optimised tables, and consumed

  /** The MCUs of the scan have the blocks the entropy coder expects. */
  ghost predicate McusFit(im: Image, sg: ScanGeom, sc: Scan) {
    && IsScanGeom(im.frame, sg) && InImage(im.frame, sg) && IsScan(sc) && AreMcus(sc, ScanMcus(im, sg))
    && forall j :: 0 <= j < |Chunks(sc.restartInterval, ScanMcus(im, sg))| ==>
         AreMcus(sc, Chunks(sc.restartInterval, ScanMcus(im, sg))[j])
  }

  /** The scan has fewer symbols than the limit of the merging loop. */
  ghost predicate NotHuge(im: Image, sg: ScanGeom, sc: Scan) {
    McusFit(im, sg, sc) && |HE.AllOps(sc, Chunks(sc.restartInterval, ScanMcus(im, sg)))| < HUGE
  }

  /** No coefficient of the scan is out of range, and its tables can be built. */
  ghost predicate Encodable(im: Image, sg: ScanGeom, sc: Scan) {
    && McusFit(im, sg, sc)
    && HES.ScanInRange(sc, NoPred(), sc.restartInterval, ScanMcus(im, sg))
    && !CannotBuild(sc, Chunks(sc.restartInterval, ScanMcus(im, sg)))
  }

  lemma PassIsDistinct(f: Frame, order: seq<nat>, s: ScanInfo, sg: ScanGeom, sc: Scan, n: nat)
    requires IsPass(f, order, s, sg, sc) && ComponentsInOrder(s, n)
    ensures Distinct(sg)
  {
    hide IsFrame, IsScan;
    InOrder(s.comps);
    forall i | 0 <= i < |sg.comps| ensures sg.comps[i].mcuWidth > 0 && sg.comps[i].mcuHeight > 0 {
      CompFacts(f, sg, i);
    }
  }

  lemma {:induction false} InOrder(comps: seq<int>)
    requires forall i :: 0 < i < |comps| ==> comps[i - 1] < comps[i]
    ensures forall i, j :: 0 <= i < j < |comps| ==> comps[i] < comps[j]
  {
    if |comps| > 1 {
      InOrder(comps[..|comps| - 1]);
      var n := |comps| - 1;
      forall i | 0 <= i < n ensures comps[i] < comps[n] {
        if i < n - 1 {
          assert comps[..n][i] < comps[..n][n - 1];
        }
      }
      forall i, j | 0 <= i < j < n ensures comps[i] < comps[j] {
        assert comps[..n][i] < comps[..n][j];
      }
    }
  }

  lemma {:induction false} RowsSizes(im: Image, sg: ScanGeom, sc: Scan, rows: nat)
    requires InImage(im.frame, sg) && |sc.membership| == McuBlocks(sg.comps, |sg.comps|)
    ensures AreMcus(sc, Rows(im, sg, rows))
  {
    hide CompBlocks;
    if rows > 0 {
      RowsSizes(im, sg, sc, rows - 1);
      RowSizes(im, sg, sc, rows - 1, sg.mcusPerRow);
    }
  }

  lemma {:induction false} RowSizes(im: Image, sg: ScanGeom, sc: Scan, r: nat, n: nat)
    requires InImage(im.frame, sg) && |sc.membership| == McuBlocks(sg.comps, |sg.comps|)
    ensures AreMcus(sc, RowMcus(im, sg, r, n))
  {
    hide CompBlocks;
    if n > 0 {
      RowSizes(im, sg, sc, r, n - 1);
    }
  }

  lemma PassFits(im: Image, order: seq<nat>, s: ScanInfo, sg: ScanGeom, sc: Scan)
    requires IsPass(im.frame, order, s, sg, sc)
    ensures McusFit(im, sg, sc) && ScanMcus(im, sg) != [] && AllPresent(sc) && AreLimits(sc, Wanted(sc))
  {
    hide IsFrame, IsScan, Rows, Chunks;
    HasMcus(im, sg);
    McuSize(im, sg);
    RowsSizes(im, sg, sc, sg.mcuRows);
    HES.ChunksOfMcus(sc, ScanMcus(im, sg));
    RowsAt(im, sg, sg.mcuRows, 0, 0);
    forall ci | 0 <= ci < |sg.comps| ensures ci in sg.membership {
      CompFacts(im.frame, sg, ci);
      MulMonotone(1, sg.comps[ci].mcuWidth, sg.comps[ci].mcuHeight);
      IsMember(sg.comps, |sg.comps|, ci);
    }
  }

  lemma {:induction false} IsMember(comps: seq<ScanComp>, n: nat, ci: nat)
    requires ci < n <= |comps| && comps[ci].mcuWidth * comps[ci].mcuHeight > 0
    ensures ci in Members(comps, n)
  {
    if ci < n - 1 {
      IsMember(comps, n - 1, ci);
    } else {
      var t := Times(ci, comps[ci].mcuWidth * comps[ci].mcuHeight);
      assert t[0] == ci;
      assert ci in t;
    }
  }

  lemma RealInScan(im: Image, order: seq<nat>, s: ScanInfo, sg: ScanGeom, sc: Scan, p: Place)
    requires IsPass(im.frame, order, s, sg, sc) && Distinct(sg) && IsReal(im.frame, p)
    ensures InScan(sg, p) <==> p.comp in s.comps
    ensures NotEmpty(im.frame, p.comp) && Sent(im, p) == Original(im, p)
  {
    hide IsFrame, IsScan, Distinct;
    var ci := CompIn(sg.comps, p.comp);
    if p.comp in s.comps {
      var i :| 0 <= i < |s.comps| && s.comps[i] == p.comp;
      assert sg.comps[i].index == p.comp;
    }
    if ci < |sg.comps| {
      RealIsIn(im, sg, p);
      assert s.comps[ci] == p.comp;
    }
    SamplingPositive(im.frame, p.comp);
    PaddedRow(im, p.comp, p.row, p.col);
  }

  /** The arrays hold what the scan starts from. */
  lemma Starts(im: Image, order: seq<nat>, arrays: seq<array2<Block>>, script: Script, s: ScanInfo, sg: ScanGeom,
               sc: Scan, n: nat, p: Place)
    requires AreArrays(im, arrays) && Progressed(im, order, arrays, script) && ScanOk(true, script, s, n)
    requires IsPass(im.frame, order, s, sg, sc) && Distinct(sg) && InScan(sg, p)
    ensures CanStart(im, arrays, sg, sc, p)
  {
    hide AreArrays, IsFrame, Geometry.Fits, CompIn, Sent, Look, InArrays, BlockReached, MayScan, IsOrder, Before;
    var ci := CompIn(sg.comps, p.comp);
    var r, m := p.row / sg.comps[ci].mcuHeight, p.col / sg.comps[ci].mcuWidth;
    HasRoom(im, arrays, sg, r, m, p);
    ScanInImage(im.frame, sg);
    if s.ss != 0 {
      OnlyReal(im, sg, r, m, p);
      RealInScan(im, order, s, sg, sc, p);
      var i :| 0 <= i < |s.comps| && s.comps[i] == p.comp;
      BlockStep(order, script, s, sc, Look(arrays, p), Look(arrays, p), Original(im, p), p.comp);
    }
  }

  /** One real block after the scan. */
  lemma Advances(im: Image, order: seq<nat>, script: Script, s: ScanInfo, sg: ScanGeom, sc: Scan, n: nat, p: Place,
                 was: Block, now: Block)
    requires ScanOk(true, script, s, n) && IsPass(im.frame, order, s, sg, sc) && Distinct(sg) && IsReal(im.frame, p)
    requires BlockReached(order, was, Original(im, p), script, p.comp)
    requires if InScan(sg, p) then Got(im, sc, p, was, now) else now == was
    ensures BlockReached(order, now, Original(im, p), script + [s], p.comp)
  {
    hide IsFrame, Distinct, Geometry.Fits, Sent, Original, Improved, BlockReached, MayScan, IsOrder, IsScanGeom;
    RealInScan(im, order, s, sg, sc, p);
    if p.comp in s.comps {
      var i :| 0 <= i < |s.comps| && s.comps[i] == p.comp;
      BlockStep(order, script, s, sc, was, now, Original(im, p), p.comp);
    } else {
      BlockSkipped(order, script, s, now, Original(im, p), p.comp);
    }
  }

  /** One scan: its symbols are counted, its tables built, its data written, and the data consumed. The arrays go
      from what the script so far says to what the script with this scan says. */
  method OnePass(im: Image, order: seq<nat>, arrays: seq<array2<Block>>, ghost script: Script, s: ScanInfo,
                 sg: ScanGeom, sc: Scan, before: Tables, pieces: seq<nat>, marker: byte, rest: seq<byte>)
    returns (ok: bool, tables: Tables)
    requires AreArrays(im, arrays) && Progressed(im, order, arrays, script)
    requires ScanOk(true, script, s, |im.frame.comps|) && IsPass(im.frame, order, s, sg, sc) && NotHuge(im, sg, sc)
    requires IsMarker(marker)
    modifies arrays
    ensures ok <==> Encodable(im, sg, sc)
    ensures ok ==> Progressed(im, order, arrays, script + [s])
  {
    hide AreArrays, IsFrame, IsScanGeom, IsScan, Distinct, Rows, Chunks, HE.AllOps, HES.ScanInRange, CannotBuild,
         HE.Coded, Wire, Stuff, Coming, ChunksFit, Join, HD.GoodTables, Slots, Used, HD.DecodesWith, AllPresent,
         OptimalTables, HES.AllCovered, Acceptable, Readable, ScanOk, InScan, CanStart, Got, Look, InArrays,
         BlockReached, AreMcus, AreLimits, Original;
    PassIsDistinctIn(im, order, script, s, sg, sc);
    PassFits(im, order, s, sg, sc);
    var mcus := ScanMcus(im, sg);
    var r;
    ghost var datas;
    r, datas := OptimizedScan(sc, mcus, before);
    ok, tables := r.Written?, before;
    if r.Written? {
      tables := r.tables;
      AcceptableIsReadable(sc, tables);
      var readable, ds := DeriveForDecoder(sc, tables);
      UsedCodes(sc, tables, mcus, r.bytes, datas);
      ghost var co := DS.Course(Chunks(sc.restartInterval, mcus), datas, marker, rest);
      ChunksAre(sc.restartInterval, mcus);
      RT.OnTheWire(co);
      forall p | InScan(sg, p) ensures CanStart(im, arrays, sg, sc, p) {
        Starts(im, order, arrays, script, s, sg, sc, |im.frame.comps|, p);
      }
      ConsumeScan(im, arrays, sg, sc, Used(sc, tables), ds, r.bytes + [0xFF, marker] + rest, pieces, co);
      forall p | IsReal(im.frame, p)
        ensures InArrays(arrays, p) && BlockReached(order, Look(arrays, p), Original(im, p), script + [s], p.comp)
      {
        Advances(im, order, script, s, sg, sc, |im.frame.comps|, p, old(Look(arrays, p)), Look(arrays, p));
      }
    }
  }

  lemma PassIsDistinctIn(im: Image, order: seq<nat>, script: Script, s: ScanInfo, sg: ScanGeom, sc: Scan)
    requires IsPass(im.frame, order, s, sg, sc) && ScanOk(true, script, s, |im.frame.comps|)
    ensures Distinct(sg) && IsScanGeom(im.frame, sg) && IsScan(sc) && sc.membership == sg.membership
  {
    hide IsFrame, IsScanGeom, IsScan;
    PassIsDistinct(im.frame, order, s, sg, sc, |im.frame.comps|);
  }

  // ----- the whole image

  ghost predicate AllZero(arrays: seq<array2<Block>>)
    reads arrays
  {
    forall p :: InArrays(arrays, p) ==> Look(arrays, p) == ZeroBlock()
  }

  lemma NoArrays()
    ensures AllZero([])
  {
  }

  lemma MoreZeros(arrays: seq<array2<Block>>, a: array2<Block>)
    requires AllZero(arrays) && forall y, x :: 0 <= y < a.Length0 && 0 <= x < a.Length1 ==> a[y, x] == ZeroBlock()
    ensures AllZero(arrays + [a])
  {
    hide ZeroBlock;
    forall p | InArrays(arrays + [a], p) ensures Look(arrays + [a], p) == ZeroBlock() {
      if p.comp < |arrays| {
        assert Look(arrays + [a], p) == Look(arrays, p);
      }
    }
  }

  /** jinit_d_coef_controller: an array for each component, padded and zeroed. */
  method NewArrays(im: Image) returns (arrays: seq<array2<Block>>)
    requires IsFrame(im.frame)
    ensures AreArrays(im, arrays) && forall c :: 0 <= c < |arrays| ==> fresh(arrays[c])
    ensures AllZero(arrays)
  {
    hide IsFrame, ZeroBlock, RoundUp, AllZero;
    arrays := [];
    NoArrays();
    for c := 0 to |im.frame.comps|
      invariant |arrays| == c && (forall i :: 0 <= i < c ==> NotEmpty(im.frame, i) && fresh(arrays[i]))
      invariant forall i :: 0 <= i < c ==>
                  && arrays[i].Length0 == im.frame.totalIMcuRows * im.frame.comps[i].vSamp
                  && arrays[i].Length1 == RoundUp(im.frame.comps[i].widthInBlocks, im.frame.comps[i].hSamp)
      invariant forall i, j :: 0 <= i < j < c ==> arrays[i] != arrays[j]
      invariant AllZero(arrays)
    {
      var co := im.frame.comps[c];
      SamplingPositive(im.frame, c);
      MulMonotone(0, im.frame.totalIMcuRows, co.vSamp);
      var a := new Block[im.frame.totalIMcuRows * co.vSamp, RoundUp(co.widthInBlocks, co.hSamp)]((_, _) => ZeroBlock());
      MoreZeros(arrays, a);
      arrays := arrays + [a];
    }
  }

  lemma RealHasRoom(im: Image, arrays: seq<array2<Block>>, p: Place)
    requires AreArrays(im, arrays) && IsReal(im.frame, p)
    ensures InArrays(arrays, p)
  {
    hide IsFrame;
    var co := im.frame.comps[p.comp];
    SamplingPositive(im.frame, p.comp);
    FitsCovering(im.frame, p.comp);
    RowsFit(im, arrays, ScanComp(p.comp, 1, 1, 0, 1, Last(co.heightInBlocks, co.vSamp)));
    RoundsUp(co.widthInBlocks, co.hSamp);
  }

  /** Nothing has been scanned. */
  lemma NothingReached(im: Image, order: seq<nat>, arrays: seq<array2<Block>>)
    requires AreArrays(im, arrays) && IsOrder(order)
    requires AllZero(arrays)
    ensures Progressed(im, order, arrays, [])
  {
    hide AreArrays;
    forall p | IsReal(im.frame, p)
      ensures InArrays(arrays, p) && BlockReached(order, Look(arrays, p), Original(im, p), [], p.comp)
    {
      RealHasRoom(im, arrays, p);
    }
  }

  /** What one scan of the script brings with it: its layout and parameters, and how its bytes arrive. */
  datatype Setup = Setup(sg: ScanGeom, sc: Scan, pieces: seq<nat>, marker: byte, rest: seq<byte>)

  ghost predicate AreSetups(im: Image, order: seq<nat>, script: Script, us: seq<Setup>) {
    |us| == |script| && forall i :: 0 <= i < |us| ==>
      && IsPass(im.frame, order, script[i], us[i].sg, us[i].sc)
      && NotHuge(im, us[i].sg, us[i].sc) && IsMarker(us[i].marker)
  }

  /** An image sent by a legal progressive script arrives, in arrays that start zeroed, exactly as the script says:
      every coefficient of every block to the bit position of its last scan. It fails when, and only when, some scan
      cannot be encoded. */
  method ProgressiveRoundTrip(im: Image, order: seq<nat>, script: Script, us: seq<Setup>, initial: Tables)
    returns (ok: bool, arrays: seq<array2<Block>>)
    requires IsFrame(im.frame) && IsOrder(order) && ScansOk(true, script, |im.frame.comps|)
    requires AreSetups(im, order, script, us)
    ensures ok <==> forall i :: 0 <= i < |us| ==> Encodable(im, us[i].sg, us[i].sc)
    ensures ok ==> Progressed(im, order, arrays, script)
  {
    hide IsFrame, IsOrder, AreArrays, IsPass, NotHuge, Encodable, BlockReached, ScanOk, Look, InArrays, IsReal;
    arrays := NewArrays(im);
    NothingReached(im, order, arrays);
    var tables := initial;
    ok := true;
    assert script[..0] == [];
    for i := 0 to |us|
      invariant ok && AreArrays(im, arrays) && forall c :: 0 <= c < |arrays| ==> fresh(arrays[c])
      invariant Progressed(im, order, arrays, script[..i])
      invariant forall k :: 0 <= k < i ==> Encodable(im, us[k].sg, us[k].sc)
    {
      assert ScanOk(true, script[..i], script[i], |im.frame.comps|);
      var u := us[i];
      ok, tables := OnePass(im, order, arrays, script[..i], script[i], u.sg, u.sc, tables, u.pieces, u.marker, u.rest);
      if !ok {
        return;
      }
      assert script[..i] + [script[i]] == script[..i + 1];
    }
    assert script[..|us|] == script;
  }

  /** When the script has sent every coefficient's last bit, the blocks are those of the image. */
  lemma LastBitIsAll(im: Image, order: seq<nat>, arrays: seq<array2<Block>>, script: Script, p: Place)
    requires Progressed(im, order, arrays, script) && IsReal(im.frame, p)
    requires forall k :: 0 <= k < DCTSIZE2 ==> LastAl(script, p.comp, k) == 0
    ensures InArrays(arrays, p) && Look(arrays, p) == Original(im, p)
  {
    hide LastAl;
    var b, orig := Look(arrays, p), Original(im, p);
    assert Pow2(0) == 1;
    forall k | 0 <= k < 64 ensures b[order[k]] == orig[order[k]] {
    }
    OrderCovers(order);
    forall n: nat | n < 64 ensures b[n] == orig[n] {
      assert n in order;
      var k :| 0 <= k < 64 && order[k] == n;
    }
  }

  /** A sequence of 64 distinct positions has all of them. */
  lemma OrderCovers(order: seq<nat>)
    requires IsOrder(order)
    ensures forall n: nat :: n < 64 ==> n in order
  {
    hide Values, Below;
    ValuesAre(order, 64);
    ValuesCount(order, 64);
    BelowAre(64);
    var seen, all := Values(order, 64), Below(64);
    forall n: nat | n < 64 ensures n in order {
      if n !in seen {
        assert seen <= all - {n};
        SmallerSet(seen, all - {n});
      }
      var i :| 0 <= i < 64 && order[i] == n;
    }
  }

  ghost function Values(order: seq<nat>, n: nat): set<nat>
    requires n <= |order|
  {
    if n == 0 then {} else Values(order, n - 1) + {order[n - 1]}
  }

  ghost function Below(n: nat): set<nat> {
    if n == 0 then {} else Below(n - 1) + {n - 1}
  }

  lemma {:induction false} ValuesAre(order: seq<nat>, n: nat)
    requires n <= |order|
    ensures forall x :: x in Values(order, n) <==> exists i :: 0 <= i < n && order[i] == x
  {
    if n > 0 {
      ValuesAre(order, n - 1);
    }
  }

  lemma {:induction false} ValuesCount(order: seq<nat>, n: nat)
    requires n <= |order| && forall i, j :: 0 <= i < j < n ==> order[i] != order[j]
    ensures |Values(order, n)| == n
  {
    if n > 0 {
      ValuesCount(order, n - 1);
      ValuesAre(order, n - 1);
    }
  }

  lemma {:induction false} BelowAre(n: nat)
    ensures |Below(n)| == n && forall x: nat :: x in Below(n) <==> x < n
  {
    if n > 0 {
      BelowAre(n - 1);
    }
  }

  lemma {:induction false} SmallerSet(a: set<nat>, b: set<nat>)
    requires a <= b
    ensures |a| <= |b|
  {
    if a != {} {
      var x :| x in a;
      SmallerSet(a - {x}, b - {x});
    }
  }

  /** The recommended progression loses nothing, for any number of components. */
  method SimpleRoundTrip(im: Image, ycc: bool, order: seq<nat>, us: seq<Setup>, initial: Tables)
    returns (ok: bool, arrays: seq<array2<Block>>)
    requires IsFrame(im.frame) && IsOrder(order)
    requires AreSetups(im, order, SP.SimpleScript(|im.frame.comps|, ycc), us)
    ensures ok <==> forall i :: 0 <= i < |us| ==> Encodable(im, us[i].sg, us[i].sc)
    ensures ok ==> forall p :: IsReal(im.frame, p) ==> InArrays(arrays, p) && Look(arrays, p) == Original(im, p)
  {
    hide IsOrder, AreSetups, SP.SimpleScript, LastAl, Progressed, Encodable, Look, InArrays;
    var script := SP.SimpleScript(|im.frame.comps|, ycc);
    SP.SimpleIsAccepted(|im.frame.comps|, ycc);
    ok, arrays := ProgressiveRoundTrip(im, order, script, us, initial);
    if ok {
      forall p | IsReal(im.frame, p) ensures InArrays(arrays, p) && Look(arrays, p) == Original(im, p) {
        LastBitIsAll(im, order, arrays, script, p);
      }
    }
  }
}
