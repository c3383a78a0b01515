// The compressor's coefficient controllers: one pass without a buffer, and a buffered first pass with output
// passes. Either way the entropy encoder is given the MCU stream of the scan.
module CoefController {
  import opened Coefs
  import opened Powers
  import opened Segments
  import opened Geometry
  import opened McuLayout

  /** The entropy encoder, as the controllers see it: it takes an MCU, or it refuses for now. */
  class EntropyEncoder {
    var taken: Mcus
    var willing: seq<bool>

    constructor (willing: seq<bool>)
      ensures taken == []
    {
      taken := [];
      this.willing := willing;
    }

    method EncodeMcu(mcu: Mcu) returns (ok: bool)
      modifies this
      ensures taken == if ok then old(taken) + [mcu] else old(taken)
      ensures willing == if old(willing) == [] then [] else old(willing)[1..]
      ensures ok <==> old(willing) == [] || old(willing)[0]
    {
      ok := |willing| == 0 || willing[0];
      if |willing| > 0 {
        willing := willing[1..];
      }
      if ok {
        taken := taken + [mcu];
      }
    }
  }

  /** MCUs sent when interleaved MCU row i is being processed, v MCU rows and m MCUs into it. */
  ghost function SentBefore(im: Image, sg: ScanGeom, i: nat, v: nat, m: nat): Mcus
    requires IsScanGeom(im.frame, sg)
  {
    ScanInImage(im.frame, sg);
    Rows(im, sg, RowsBefore(im, sg, i) + v) + RowMcus(im, sg, RowsBefore(im, sg, i) + v, m)
  }

  /** The state between calls: the counters tell what was sent. */
  ghost predicate InStep(im: Image, sg: ScanGeom, i: nat, v: nat, m: nat, rowsIn: nat, taken: Mcus) {
    && IsScanGeom(im.frame, sg) && i <= im.frame.totalIMcuRows
    && (if i < im.frame.totalIMcuRows then
          rowsIn == RowsIn(im, sg, i) && v < rowsIn && m < sg.mcusPerRow && taken == SentBefore(im, sg, i, v, m)
        else v == 0 && m == 0 && taken == Sent(im, sg))
  }

  /** The whole scan. */
  ghost function Sent(im: Image, sg: ScanGeom): Mcus
    requires IsScanGeom(im.frame, sg)
  {
    ScanInImage(im.frame, sg);
    ScanMcus(im, sg)
  }

  // ----- stepping through the rows

  lemma AtFirst(im: Image, sg: ScanGeom)
    requires IsScanGeom(im.frame, sg)
    ensures SentBefore(im, sg, 0, 0, 0) == [] && im.frame.totalIMcuRows > 0 && RowsIn(im, sg, 0) > 0 &&
            sg.mcusPerRow > 0
  {
    CompFacts(im.frame, sg, 0);
    SamplingPositive(im.frame, sg.comps[0].index);
    ScanInImage(im.frame, sg);
  }

  lemma NextMcu(im: Image, sg: ScanGeom, i: nat, v: nat, m: nat)
    requires IsScanGeom(im.frame, sg) && InImage(im.frame, sg)
    ensures SentBefore(im, sg, i, v, m + 1)
            == SentBefore(im, sg, i, v, m) + [McuAt(im, sg, RowsBefore(im, sg, i) + v, m)]
  {
  }

  lemma NextRow(im: Image, sg: ScanGeom, i: nat, v: nat)
    requires IsScanGeom(im.frame, sg)
    ensures SentBefore(im, sg, i, v + 1, 0) == SentBefore(im, sg, i, v, sg.mcusPerRow)
  {
    hide IsScanGeom, RowMcus;
    ScanInImage(im.frame, sg);
    NoMcus(im, sg, RowsBefore(im, sg, i) + v + 1);
  }

  lemma NoMcus(im: Image, sg: ScanGeom, r: nat)
    requires InImage(im.frame, sg)
    ensures RowMcus(im, sg, r, 0) == []
  {
  }

  lemma NextIMcuRow(im: Image, sg: ScanGeom, i: nat)
    requires IsScanGeom(im.frame, sg) && i < im.frame.totalIMcuRows
    ensures i + 1 < im.frame.totalIMcuRows ==>
              SentBefore(im, sg, i + 1, 0, 0) == SentBefore(im, sg, i, RowsIn(im, sg, i), 0)
    ensures i + 1 == im.frame.totalIMcuRows ==>
              Sent(im, sg) == SentBefore(im, sg, i, RowsIn(im, sg, i), 0)
  {
    hide IsScanGeom, RowMcus, RowsIn, RowsBefore, Rows;
    ScanInImage(im.frame, sg);
    RowsPartition(im, sg, i);
    NoMcus(im, sg, RowsBefore(im, sg, i + 1));
    NoMcus(im, sg, RowsBefore(im, sg, i) + RowsIn(im, sg, i));
  }

  // ----- the controller

  class CoefController {
    const im: Image
    const sg: ScanGeom
    const entropy: EntropyEncoder
    const mcuBuffer: array<Block>
    var iMcuRowNum: nat
    var mcuCtr: nat
    var mcuVertOffset: nat
    var mcuRowsPerIMcuRow: nat

    ghost predicate Valid()
      reads this, entropy
    {
      && mcuBuffer.Length == C_MAX_BLOCKS_IN_MCU
      && InStep(im, sg, iMcuRowNum, mcuVertOffset, mcuCtr, mcuRowsPerIMcuRow, entropy.taken)
    }

    constructor (im: Image, sg: ScanGeom, entropy: EntropyEncoder)
      requires IsScanGeom(im.frame, sg) && entropy.taken == []
      ensures this.im == im && this.sg == sg && this.entropy == entropy && Valid() && fresh(mcuBuffer)
      ensures iMcuRowNum == 0
    {
      this.im := im;
      this.sg := sg;
      this.entropy := entropy;
      mcuBuffer := new Block[C_MAX_BLOCKS_IN_MCU](_ => ZeroBlock());
      iMcuRowNum := 0;
      new;
      AtFirst(im, sg);
      StartIMcuRow();
    }

    /** start_iMCU_row. */
    method StartIMcuRow()
      requires IsScanGeom(im.frame, sg)
      modifies `mcuCtr, `mcuVertOffset, `mcuRowsPerIMcuRow
      ensures mcuCtr == 0 && mcuVertOffset == 0
      ensures iMcuRowNum < im.frame.totalIMcuRows ==> mcuRowsPerIMcuRow == RowsIn(im, sg, iMcuRowNum)
    {
      mcuRowsPerIMcuRow := RowsIn(im, sg, iMcuRowNum);
      mcuCtr := 0;
      mcuVertOffset := 0;
    }

    /** forward_DCT of n blocks side by side. The input holds the samples of one interleaved MCU row, from row
        top of the component; the blocks go to MCU_buffer from position at. */
    method ForwardDct(c: nat, top: nat, at: nat, startRow: nat, startCol: nat, n: nat)
      requires c < |im.frame.comps| && at + n <= mcuBuffer.Length
      modifies mcuBuffer
      ensures forall k :: 0 <= k < mcuBuffer.Length ==>
                mcuBuffer[k] == if at <= k < at + n then im.dct(c, top + startRow,
                    startCol + (k - at) * im.frame.comps[c].dctH)
                                else old(mcuBuffer[k])
    {
      for b := 0 to n
        invariant forall k :: 0 <= k < mcuBuffer.Length ==>
                    mcuBuffer[k] == if at <= k < at + b then im.dct(c, top + startRow,
                        startCol + (k - at) * im.frame.comps[c].dctH)
                                    else old(mcuBuffer[k])
      {
        mcuBuffer[at + b] := im.dct(c, top + startRow, startCol + b * im.frame.comps[c].dctH);
      }
    }

    /** Real blocks, then dummy ones at the right edge. */
    method FillReal(ci: nat, i: nat, yoffset: nat, yindex: nat, m: nat, ypos: nat, blkn: nat)
      requires InScan(im, sg, ci, i, yoffset, yindex, m, 0) && RealRow(im, sg, ci, i, yoffset, yindex)
      requires blkn + sg.comps[ci].mcuWidth <= mcuBuffer.Length
      requires ypos == (yoffset + yindex) * im.frame.comps[sg.comps[ci].index].dctV
      modifies mcuBuffer
      ensures mcuBuffer[..blkn] == old(mcuBuffer[..blkn])
      ensures forall x :: 0 <= x < sg.comps[ci].mcuWidth ==>
              mcuBuffer[blkn + x] == BlockAt(im, sg, ci, i, yoffset, yindex, m, x)
    {
      hide IsScanGeom, InImage, BlockAt, Real, ZeroBlock;
      CompFacts(im.frame, sg, ci);
      var sc := sg.comps[ci];
      var compptr := im.frame.comps[sc.index];
      var blockcnt := if m < sg.mcusPerRow - 1 then sc.mcuWidth else sc.lastColWidth;
      var xpos := m * sc.mcuSampleWidth;
      ForwardDct(sc.index, i * compptr.vSamp * compptr.dctV, blkn, ypos, xpos, blockcnt);
      forall x: nat | x < blockcnt
        ensures mcuBuffer[blkn + x] == BlockAt(im, sg, ci, i, yoffset, yindex, m, x)
      {
        DctAt(im, sg, ci, i, yoffset, yindex, m, x);
      }
      for bi := blockcnt to sc.mcuWidth
        invariant mcuBuffer[..blkn] == old(mcuBuffer[..blkn])
        invariant forall x :: 0 <= x < bi ==> mcuBuffer[blkn + x] == BlockAt(im, sg, ci, i, yoffset, yindex, m, x)
      {
        RightAt(im, sg, ci, i, yoffset, yindex, m, bi);
        mcuBuffer[blkn + bi] := ZeroBlock()[0 := mcuBuffer[blkn + bi - 1][0]];
      }
    }

    /** One row of blocks of a component. */
    method FillStrip(ci: nat, i: nat, yoffset: nat, yindex: nat, m: nat, ypos: nat, blkn: nat)
      requires InScan(im, sg, ci, i, yoffset, yindex, m, 0)
      requires blkn + sg.comps[ci].mcuWidth <= mcuBuffer.Length
      requires ypos == (yoffset + yindex) * im.frame.comps[sg.comps[ci].index].dctV
      requires yindex > 0 ==> blkn > 0 && mcuBuffer[blkn - 1] == BlockAt(im, sg, ci, i, yoffset, yindex - 1, m, sg.comps[ci].mcuWidth - 1)
      modifies mcuBuffer
      ensures mcuBuffer[..blkn] == old(mcuBuffer[..blkn])
      ensures forall x :: 0 <= x < sg.comps[ci].mcuWidth ==>
              mcuBuffer[blkn + x] == BlockAt(im, sg, ci, i, yoffset, yindex, m, x)
    {
      hide IsScanGeom, InImage, BlockAt, ZeroBlock;
      CompFacts(im.frame, sg, ci);
      var sc := sg.comps[ci];
      if i < im.frame.totalIMcuRows - 1 || yoffset + yindex < sc.lastRowHeight {
        FillReal(ci, i, yoffset, yindex, m, ypos, blkn);
      } else {
        for bi := 0 to sc.mcuWidth
          invariant mcuBuffer[..blkn] == old(mcuBuffer[..blkn])
          invariant forall x :: 0 <= x < bi ==> mcuBuffer[blkn + x] == BlockAt(im, sg, ci, i, yoffset, yindex, m, x)
        {
          BottomAt(im, sg, ci, i, yoffset, yindex, m, bi);
          assert mcuBuffer[blkn - 1] == mcuBuffer[..blkn][blkn - 1];
          mcuBuffer[blkn + bi] := ZeroBlock()[0 := mcuBuffer[blkn - 1][0]];
        }
      }
    }

    /** Adds a row of blocks to those already in MCU_buffer. */
    method AppendStrip(ci: nat, i: nat, yoffset: nat, yindex: nat, m: nat, ypos: nat, blkn: nat)
      requires InScan(im, sg, ci, i, yoffset, yindex, m, 0) && NotEmpty(im.frame, sg.comps[ci].index)
      requires blkn + sg.comps[ci].mcuWidth <= mcuBuffer.Length
      requires ypos == (yoffset + yindex) * im.frame.comps[sg.comps[ci].index].dctV
      requires yindex > 0 ==> blkn > 0 && mcuBuffer[blkn - 1] == BlockAt(im, sg, ci, i, yoffset, yindex - 1, m, sg.comps[ci].mcuWidth - 1)
      modifies mcuBuffer
      ensures mcuBuffer[..blkn + sg.comps[ci].mcuWidth] == old(mcuBuffer[..blkn])
              + Strip(im, sg.comps[ci], RowsBefore(im, sg, i) + yoffset, m, yindex, sg.comps[ci].mcuWidth)
      ensures mcuBuffer[blkn + sg.comps[ci].mcuWidth - 1]
              == BlockAt(im, sg, ci, i, yoffset, yindex, m, sg.comps[ci].mcuWidth - 1)
    {
      hide IsScanGeom, InImage, BlockAt, Strip, RowsBefore, RowsIn;
      FillStrip(ci, i, yoffset, yindex, m, ypos, blkn);
      var next := blkn + sg.comps[ci].mcuWidth;
      StripIs(im, sg, ci, i, yoffset, yindex, m, mcuBuffer[blkn..next]);
      assert mcuBuffer[..next] == mcuBuffer[..blkn] + mcuBuffer[blkn..next];
    }

    /** yindex rows of blocks of the component are in MCU_buffer, up to position next. */
    ghost predicate Filled(ci: nat, i: nat, yoffset: nat, m: nat, before: seq<Block>, yindex: nat, next: nat, ypos: nat)
      reads mcuBuffer
    {
      && InScan(im, sg, ci, i, yoffset, 0, m, 0) && NotEmpty(im.frame, sg.comps[ci].index)
      && yindex <= sg.comps[ci].mcuHeight && |before| == McuBlocks(sg.comps, ci) &&
          mcuBuffer.Length == C_MAX_BLOCKS_IN_MCU
      && ypos == (yoffset + yindex) * im.frame.comps[sg.comps[ci].index].dctV
      && next == |before| + yindex * sg.comps[ci].mcuWidth <= mcuBuffer.Length
      && mcuBuffer[..next] == before + Strips(im, sg.comps[ci], RowsBefore(im, sg, i) + yoffset, m, yindex)
      && (yindex > 0 ==> next > 0 && mcuBuffer[next - 1] == BlockAt(im, sg, ci, i, yoffset, yindex - 1, m, sg.comps[ci].mcuWidth - 1))
    }

    method NextStrip(ci: nat, i: nat, yoffset: nat, m: nat, ghost before: seq<Block>, yindex: nat, next: nat, ypos: nat)
      requires Filled(ci, i, yoffset, m, before, yindex, next, ypos) && yindex < sg.comps[ci].mcuHeight
      modifies mcuBuffer
      ensures Filled(ci, i, yoffset, m, before, yindex + 1, next + sg.comps[ci].mcuWidth,
                     ypos + im.frame.comps[sg.comps[ci].index].dctV)
    {
      hide IsScanGeom, InImage, BlockAt, Strip, Strips, RowsBefore, RowsIn, McuBlocks, NotEmpty;
      CompFacts(im.frame, sg, ci);
      McuFits(sg.comps, ci, yindex);
      ScanFits(im.frame, sg, ci);
      AppendStrip(ci, i, yoffset, yindex, m, ypos, next);
      MulAdd(yoffset + yindex, 1, im.frame.comps[sg.comps[ci].index].dctV);
      OneMoreStrip(im, sg.comps[ci], RowsBefore(im, sg, i) + yoffset, m, yindex);
    }

    lemma NothingFilled(ci: nat, i: nat, yoffset: nat, m: nat, before: seq<Block>, ypos: nat)
      requires InScan(im, sg, ci, i, yoffset, 0, m, 0) && mcuBuffer.Length == C_MAX_BLOCKS_IN_MCU
      requires |before| == McuBlocks(sg.comps, ci) && |before| <= mcuBuffer.Length && mcuBuffer[..|before|] == before
      requires sg.comps[ci].index < |im.frame.comps| && ypos == yoffset * im.frame.comps[sg.comps[ci].index].dctV
      ensures Filled(ci, i, yoffset, m, before, 0, |before|, ypos)
    {
      hide IsScanGeom, InImage, RowsBefore, RowsIn, McuBlocks;
      CompFacts(im.frame, sg, ci);
    }

    lemma AllFilled(ci: nat, i: nat, yoffset: nat, m: nat, before: seq<Block>, next: nat, ypos: nat)
      requires ci < |sg.comps| && Filled(ci, i, yoffset, m, before, sg.comps[ci].mcuHeight, next, ypos)
      ensures NotEmpty(im.frame, sg.comps[ci].index) && next == McuBlocks(sg.comps, ci + 1) <= mcuBuffer.Length
      ensures InScan(im, sg, ci, i, yoffset, 0, m, 0)
      ensures mcuBuffer[..next] == before
              + Strips(im, sg.comps[ci], RowsBefore(im, sg, i) + yoffset, m, sg.comps[ci].mcuHeight)
    {
      hide IsScanGeom, InImage, RowsBefore, RowsIn, BlockAt, Strips, NotEmpty;
      MulSwap(sg.comps[ci].mcuWidth, sg.comps[ci].mcuHeight);
    }

    /** The blocks of one component within an MCU. */
    method FillComponent(ci: nat, i: nat, yoffset: nat, m: nat, blkn: nat) returns (next: nat)
      requires InScan(im, sg, ci, i, yoffset, 0, m, 0) && mcuBuffer.Length == C_MAX_BLOCKS_IN_MCU
      requires blkn == McuBlocks(sg.comps, ci) <= mcuBuffer.Length
      modifies mcuBuffer
      ensures next == McuBlocks(sg.comps, ci + 1) <= mcuBuffer.Length
      ensures NotEmpty(im.frame, sg.comps[ci].index)
      ensures mcuBuffer[..next] == old(mcuBuffer[..blkn])
              + Strips(im, sg.comps[ci], RowsBefore(im, sg, i) + yoffset, m, sg.comps[ci].mcuHeight)
    {
      hide IsScanGeom, InImage, Strips, RowsBefore, RowsIn, McuBlocks, NotEmpty, CoefController.Filled;
      CompFacts(im.frame, sg, ci);
      ScanFits(im.frame, sg, ci);
      var sc := sg.comps[ci];
      var dctV := im.frame.comps[sc.index].dctV;
      var ypos := yoffset * dctV;
      ghost var before := mcuBuffer[..blkn];
      next := blkn;
      NothingFilled(ci, i, yoffset, m, before, ypos);
      for yindex: nat := 0 to sc.mcuHeight
        invariant ypos >= 0 && Filled(ci, i, yoffset, m, before, yindex, next, ypos)
      {
        NextStrip(ci, i, yoffset, m, before, yindex, next, ypos);
        next := next + sc.mcuWidth;
        ypos := ypos + dctV;
      }
      AllFilled(ci, i, yoffset, m, before, next, ypos);
    }

    /** Builds the MCU in column m of MCU row yoffset of interleaved MCU row i. */
    method FillMcu(i: nat, yoffset: nat, m: nat) returns (blkn: nat)
      requires IsScanGeom(im.frame, sg) && mcuBuffer.Length == C_MAX_BLOCKS_IN_MCU && i < im.frame.totalIMcuRows
      requires yoffset < RowsIn(im, sg, i) && m < sg.mcusPerRow
      modifies mcuBuffer
      ensures blkn <= mcuBuffer.Length && InImage(im.frame, sg)
      ensures mcuBuffer[..blkn] == McuAt(im, sg, RowsBefore(im, sg, i) + yoffset, m)
    {
      hide IsScanGeom, InImage, RowsBefore, RowsIn, Strips;
      ScanInImage(im.frame, sg);
      ghost var r := RowsBefore(im, sg, i) + yoffset;
      blkn := 0;
      for ci := 0 to |sg.comps|
        invariant blkn == McuBlocks(sg.comps, ci) <= mcuBuffer.Length &&
                  mcuBuffer[..blkn] == CompBlocks(im, sg, r, m, ci)
      {
        CompFacts(im.frame, sg, ci);
        blkn := FillComponent(ci, i, yoffset, m, blkn);
      }
    }

    /** compress_data: one interleaved MCU row, or as much of it as the encoder will take. */
    method CompressData() returns (ok: bool)
      requires Valid() && iMcuRowNum < im.frame.totalIMcuRows
      modifies `iMcuRowNum, `mcuCtr, `mcuVertOffset, `mcuRowsPerIMcuRow, entropy, mcuBuffer
      ensures Valid() && iMcuRowNum == old(iMcuRowNum) + (if ok then 1 else 0)
      ensures |entropy.willing| <= |old(entropy.willing)| && (!ok ==> |entropy.willing| < |old(entropy.willing)|)
    {
      hide IsScanGeom, InImage, RowsBefore, RowsIn, SentBefore, Sent, McuAt;
      ScanInImage(im.frame, sg);
      ghost var i := iMcuRowNum;
      var first: nat := mcuCtr;
      for yoffset: nat := mcuVertOffset to mcuRowsPerIMcuRow
        invariant iMcuRowNum == i && mcuRowsPerIMcuRow == RowsIn(im, sg, i) && first < sg.mcusPerRow
        invariant entropy.taken == SentBefore(im, sg, i, yoffset, first) && (yoffset == mcuRowsPerIMcuRow ==>
                  first == 0)
        invariant |entropy.willing| <= |old(entropy.willing)|
      {
        for mcuCol: nat := first to sg.mcusPerRow
          invariant iMcuRowNum == i && mcuRowsPerIMcuRow == RowsIn(im, sg, i)
          invariant entropy.taken == SentBefore(im, sg, i, yoffset, mcuCol)
          invariant |entropy.willing| <= |old(entropy.willing)|
        {
          var blkn := FillMcu(iMcuRowNum, yoffset, mcuCol);
          NextMcu(im, sg, i, yoffset, mcuCol);
          var took := entropy.EncodeMcu(mcuBuffer[..blkn]);
          if !took {
            mcuVertOffset := yoffset;
            mcuCtr := mcuCol;
            return false;
          }
        }
        NextRow(im, sg, i, yoffset);
        first := 0;
      }
      NextIMcuRow(im, sg, i);
      iMcuRowNum := iMcuRowNum + 1;
      StartIMcuRow();
      RowsInPositive(im, sg, iMcuRowNum);
      return true;
    }
  }

  lemma RowsInPositive(im: Image, sg: ScanGeom, i: nat)
    requires IsScanGeom(im.frame, sg)
    ensures i < im.frame.totalIMcuRows ==> RowsIn(im, sg, i) > 0
  {
    if i < im.frame.totalIMcuRows {
      RowsPartition(im, sg, i);
    }
  }

  lemma OneMoreStrip(im: Image, sc: ScanComp, r: nat, m: nat, n: nat)
    requires NotEmpty(im.frame, sc.index)
    ensures Strips(im, sc, r, m, n + 1) == Strips(im, sc, r, m, n) + Strip(im, sc, r, m, n, sc.mcuWidth)
  {
  }

  lemma ScanFits(f: Frame, sg: ScanGeom, ci: nat)
    requires IsScanGeom(f, sg) && ci <= |sg.comps|
    ensures McuBlocks(sg.comps, ci) <= McuBlocks(sg.comps, |sg.comps|) <= C_MAX_BLOCKS_IN_MCU
  {
    McuBlocksMonotone(sg.comps, ci, |sg.comps|);
  }

  lemma StripIs(im: Image, sg: ScanGeom, ci: nat, i: nat, yoffset: nat, yindex: nat, m: nat, s: seq<Block>)
    requires InScan(im, sg, ci, i, yoffset, yindex, m, 0) && |s| == sg.comps[ci].mcuWidth
    requires NotEmpty(im.frame, sg.comps[ci].index)
    requires forall x :: 0 <= x < |s| ==> s[x] == BlockAt(im, sg, ci, i, yoffset, yindex, m, x)
    ensures s == Strip(im, sg.comps[ci], RowsBefore(im, sg, i) + yoffset, m, yindex, |s|)
  {
    hide Padded, RowsBefore, Strip, IsScanGeom, InImage;
    forall x: nat | x < |s|
      ensures s[x] == Strip(im, sg.comps[ci], RowsBefore(im, sg, i) + yoffset, m, yindex, |s|)[x]
    {
      StripAt(im, sg.comps[ci], RowsBefore(im, sg, i) + yoffset, m, yindex, |s|, x);
    }
  }

  lemma DctAt(im: Image, sg: ScanGeom, ci: nat, i: nat, yoffset: nat, yindex: nat, m: nat, x: nat)
    requires InScan(im, sg, ci, i, yoffset, yindex, m, x) && RealRow(im, sg, ci, i, yoffset, yindex) &&
             x < BlockCount(sg, ci, m)
    ensures var sc := sg.comps[ci]; var c := im.frame.comps[sc.index];
            c.vSamp >= 0 && i * c.vSamp * c.dctV >= 0
            && BlockAt(im, sg, ci, i, yoffset, yindex, m, x)
               == im.dct(sc.index, i * c.vSamp * c.dctV + (yoffset + yindex) * c.dctV,
                   m * sc.mcuSampleWidth + x * c.dctH)
  {
    hide IsScanGeom, InImage, BlockAt;
    CompFacts(im.frame, sg, ci);
    SamplePosition(im, sg.comps[ci], i, yoffset + yindex, m, x);
    RealAt(im, sg, ci, i, yoffset, yindex, m, x);
  }

  /** Block x of row yindex of component ci, in MCU column m of MCU row yoffset of interleaved MCU row i. */
  function BlockAt(im: Image, sg: ScanGeom, ci: nat, i: nat, yoffset: nat, yindex: nat, m: nat, x: nat): Block
    requires IsScanGeom(im.frame, sg) && InImage(im.frame, sg) && ci < |sg.comps|
  {
    MulMonotone(0, RowsBefore(im, sg, i) + yoffset, sg.comps[ci].mcuHeight);
    MulMonotone(0, m, sg.comps[ci].mcuWidth);
    IsInImage(im.frame, sg, ci);
    Padded(im, sg.comps[ci].index, (RowsBefore(im, sg, i) + yoffset) * sg.comps[ci].mcuHeight + yindex,
           m * sg.comps[ci].mcuWidth + x)
  }

  function BlockCount(sg: ScanGeom, ci: nat, m: nat): nat
    requires ci < |sg.comps|
  {
    if m < sg.mcusPerRow - 1 then sg.comps[ci].mcuWidth else sg.comps[ci].lastColWidth
  }

  ghost predicate InScan(im: Image, sg: ScanGeom, ci: nat, i: nat, yoffset: nat, yindex: nat, m: nat, x: nat) {
    && IsScanGeom(im.frame, sg) && InImage(im.frame, sg) && ci < |sg.comps| && i < im.frame.totalIMcuRows
    && yoffset < RowsIn(im, sg, i) && yindex < sg.comps[ci].mcuHeight && m < sg.mcusPerRow && x < sg.comps[ci].mcuWidth
  }

  predicate RealRow(im: Image, sg: ScanGeom, ci: nat, i: nat, yoffset: nat, yindex: nat)
    requires ci < |sg.comps|
  {
    i < im.frame.totalIMcuRows - 1 || yoffset + yindex < sg.comps[ci].lastRowHeight
  }

  lemma RealAt(im: Image, sg: ScanGeom, ci: nat, i: nat, yoffset: nat, yindex: nat, m: nat, x: nat)
    requires InScan(im, sg, ci, i, yoffset, yindex, m, x) && RealRow(im, sg, ci, i, yoffset, yindex) &&
             x < BlockCount(sg, ci, m)
    ensures BlockAt(im, sg, ci, i, yoffset, yindex, m, x)
            == Real(im, sg.comps[ci].index, i * im.frame.comps[sg.comps[ci].index].vSamp + yoffset + yindex,
                    m * sg.comps[ci].mcuWidth + x)
  {
    hide IsScanGeom, InImage, Padded, Real;
    CompFacts(im.frame, sg, ci);
    BlockRow(im, sg, ci, i, yoffset, yindex);
    BlockColumns(im, sg, ci, m, x);
    PaddedRow(im, sg.comps[ci].index, i * im.frame.comps[sg.comps[ci].index].vSamp + yoffset + yindex,
              m * sg.comps[ci].mcuWidth + x);
  }

  lemma RightAt(im: Image, sg: ScanGeom, ci: nat, i: nat, yoffset: nat, yindex: nat, m: nat, x: nat)
    requires InScan(im, sg, ci, i, yoffset, yindex, m, x) && RealRow(im, sg, ci, i, yoffset, yindex) &&
             x >= BlockCount(sg, ci, m)
    ensures x > 0 && BlockAt(im, sg, ci, i, yoffset, yindex, m, x)
                     == ZeroBlock()[0 := BlockAt(im, sg, ci, i, yoffset, yindex, m, x - 1)[0]]
  {
    hide IsScanGeom, InImage, Padded, Dummy, ZeroBlock;
    CompFacts(im.frame, sg, ci);
    var c, w := sg.comps[ci].index, m * sg.comps[ci].mcuWidth;
    BlockRow(im, sg, ci, i, yoffset, yindex);
    var y := i * im.frame.comps[c].vSamp + yoffset + yindex;
    BlockColumns(im, sg, ci, m, x);
    PaddedRow(im, c, y, w + x);
    BlockColumns(im, sg, ci, m, x - 1);
    PaddedRow(im, c, y, w + x - 1);
    DummyDc(Padded(im, c, y, im.frame.comps[c].widthInBlocks - 1)[0]);
    DummyDc(Padded(im, c, y, w + x - 1)[0]);
  }

  lemma BottomAt(im: Image, sg: ScanGeom, ci: nat, i: nat, yoffset: nat, yindex: nat, m: nat, x: nat)
    requires InScan(im, sg, ci, i, yoffset, yindex, m, x) && !RealRow(im, sg, ci, i, yoffset, yindex)
    ensures yindex > 0 && BlockAt(im, sg, ci, i, yoffset, yindex, m, x)
            == ZeroBlock()[0 := BlockAt(im, sg, ci, i, yoffset, yindex - 1, m, sg.comps[ci].mcuWidth - 1)[0]]
  {
    hide IsScanGeom, InImage, Padded, Dummy, ZeroBlock, LastInGroup;
    CompFacts(im.frame, sg, ci);
    var c := sg.comps[ci].index;
    BlockRow(im, sg, ci, i, yoffset, yindex);
    BlockRow(im, sg, ci, i, yoffset, yindex - 1);
    PaddedRow(im, c, i * im.frame.comps[c].vSamp + yoffset + yindex, m * sg.comps[ci].mcuWidth + x);
    GroupOf(m, sg.comps[ci].mcuWidth, x);
    DummyDc(BlockAt(im, sg, ci, i, yoffset, yindex - 1, m, sg.comps[ci].mcuWidth - 1)[0]);
  }

  /** The unbuffered pass sends the MCU stream of the scan, whatever the encoder refuses on the way. */
  method SendDirectly(im: Image, sg: ScanGeom, willing: seq<bool>) returns (sent: Mcus)
    requires IsScanGeom(im.frame, sg)
    ensures InImage(im.frame, sg) && sent == ScanMcus(im, sg)
  {
    hide IsScanGeom, InImage, SentBefore, ScanMcus, RowsIn;
    ScanInImage(im.frame, sg);
    var entropy := new EntropyEncoder(willing);
    var coef := new CoefController(im, sg, entropy);
    while coef.iMcuRowNum < im.frame.totalIMcuRows
      invariant coef.im == im && coef.sg == sg && coef.entropy == entropy && fresh(coef) && fresh(entropy) &&
                fresh(coef.mcuBuffer)
      invariant coef.Valid()
      decreases im.frame.totalIMcuRows - coef.iMcuRowNum, |entropy.willing|
    {
      var ok := coef.CompressData();
    }
    sent := entropy.taken;
  }
}
