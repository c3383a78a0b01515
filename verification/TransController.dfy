// The transcoder's coefficient controller: output from arrays that hold only real blocks, with dummy blocks
// made on the fly. The MCU stream is that of the other controllers.
module TransController {
  import opened Coefs
  import opened Powers
  import opened Segments
  import opened Geometry
  import opened McuLayout
  import opened CoefController
  import opened BufferedController

  /** The presupplied arrays hold the real blocks of every component. */
  ghost predicate AreSupplied(im: Image, arrays: seq<array2<Block>>)
    reads arrays
  {
    && |arrays| == |im.frame.comps|
    && forall c :: 0 <= c < |arrays| ==>
         && arrays[c].Length0 >= im.frame.comps[c].heightInBlocks &&
             arrays[c].Length1 >= im.frame.comps[c].widthInBlocks
         && forall y, x :: 0 <= y < im.frame.comps[c].heightInBlocks && 0 <= x < im.frame.comps[c].widthInBlocks ==>
              arrays[c][y, x] == Real(im, c, y, x)
  }

  class TransController {
    const im: Image
    const wholeImage: seq<array2<Block>>
    const sg: ScanGeom
    const entropy: EntropyEncoder
    const dummyBuffer: array<Block>
    var iMcuRowNum: nat
    var mcuCtr: nat
    var mcuVertOffset: nat
    var mcuRowsPerIMcuRow: nat

    /** The AC entries of the dummy blocks were zeroed once and stay zero. */
    ghost predicate ZeroAc()
      reads dummyBuffer
    {
      dummyBuffer.Length == C_MAX_BLOCKS_IN_MCU && forall k :: 0 <= k < dummyBuffer.Length ==>
          dummyBuffer[k] == Dummy(dummyBuffer[k][0])
    }

    ghost predicate Valid()
      reads this, entropy, wholeImage, dummyBuffer
    {
      && AreSupplied(im, wholeImage) && ZeroAc()
      && InStep(im, sg, iMcuRowNum, mcuVertOffset, mcuCtr, mcuRowsPerIMcuRow, entropy.taken)
    }

    constructor (im: Image, arrays: seq<array2<Block>>, sg: ScanGeom, entropy: EntropyEncoder)
      requires AreSupplied(im, arrays) && IsScanGeom(im.frame, sg) && entropy.taken == []
      ensures this.im == im && wholeImage == arrays && this.sg == sg && this.entropy == entropy
      ensures Valid() && iMcuRowNum == 0 && fresh(dummyBuffer)
    {
      this.im := im;
      wholeImage := arrays;
      this.sg := sg;
      this.entropy := entropy;
      dummyBuffer := new Block[C_MAX_BLOCKS_IN_MCU](_ => ZeroBlock());
      iMcuRowNum := 0;
      new;
      DummyDc(0);
      assert ZeroBlock()[0 := 0] == ZeroBlock();
      AtFirst(im, sg);
      StartIMcuRow();
    }

    /** start_iMCU_row. */
    method StartIMcuRow()
      requires IsScanGeom(im.frame, sg)
      modifies `mcuCtr, `mcuVertOffset, `mcuRowsPerIMcuRow
      ensures mcuCtr == 0 && mcuVertOffset == 0
      ensures iMcuRowNum < im.frame.totalIMcuRows ==> mcuRowsPerIMcuRow == RowsIn(im, sg, iMcuRowNum)
    {
      mcuRowsPerIMcuRow := RowsIn(im, sg, iMcuRowNum);
      mcuCtr := 0;
      mcuVertOffset := 0;
    }

    /** One row of blocks of component ci: real blocks, if any, and then dummy ones. */
    method AppendStrip(mcu: seq<Block>, ci: nat, yoffset: nat, yindex: nat, m: nat) returns (more: seq<Block>)
      requires AreSupplied(im, wholeImage) && ZeroAc() && InScan(im, sg, ci, iMcuRowNum, yoffset, yindex, m, 0)
      requires NotEmpty(im.frame, sg.comps[ci].index) && |mcu| + sg.comps[ci].mcuWidth <= C_MAX_BLOCKS_IN_MCU
      requires yindex > 0 ==> |mcu| > 0 && mcu[|mcu| - 1]
                                           == BlockAt(im, sg, ci, iMcuRowNum, yoffset, yindex - 1, m,
                                               sg.comps[ci].mcuWidth - 1)
      modifies dummyBuffer
      ensures ZeroAc()
      ensures more == mcu + Strip(im, sg.comps[ci], RowsBefore(im, sg, iMcuRowNum) + yoffset, m, yindex,
              sg.comps[ci].mcuWidth)
    {
      hide IsScanGeom, InImage, RowsBefore, RowsIn, Padded, Real, Dummy, ZeroBlock, BlockAt, AreSupplied, Strip,
           NotEmpty;
      CompFacts(im.frame, sg, ci);
      var sc := sg.comps[ci];
      var blockcnt := if m < sg.mcusPerRow - 1 then sc.mcuWidth else sc.lastColWidth;
      more := mcu;
      var xindex: nat := 0;
      if iMcuRowNum < im.frame.totalIMcuRows - 1 || yindex + yoffset < sc.lastRowHeight {
        while xindex < blockcnt
          invariant xindex <= blockcnt && |more| == |mcu| + xindex && more[..|mcu|] == mcu
          invariant forall x :: 0 <= x < xindex ==>
                      more[|mcu| + x] == BlockAt(im, sg, ci, iMcuRowNum, yoffset, yindex, m, x)
          modifies {}
        {
          var b := Fetch(ci, yoffset, yindex, m, xindex);
          more := more + [b];
          xindex := xindex + 1;
        }
      }
      while xindex < sc.mcuWidth
        invariant xindex <= sc.mcuWidth && |more| == |mcu| + xindex && more[..|mcu|] == mcu && ZeroAc()
        invariant xindex > 0 || !RealRow(im, sg, ci, iMcuRowNum, yoffset, yindex)
        invariant RealRow(im, sg, ci, iMcuRowNum, yoffset, yindex) ==> xindex >= BlockCount(sg, ci, m)
        invariant forall x :: 0 <= x < xindex ==>
                    more[|mcu| + x] == BlockAt(im, sg, ci, iMcuRowNum, yoffset, yindex, m, x)
      {
        DummyAt(im, sg, ci, iMcuRowNum, yoffset, yindex, m, xindex);
        var blkn := |more|;
        DummyDc(dummyBuffer[blkn][0]);
        SetDc(dummyBuffer[blkn], more[blkn - 1][0]);
        dummyBuffer[blkn] := dummyBuffer[blkn][0 := more[blkn - 1][0]];
        more := more + [dummyBuffer[blkn]];
        xindex := xindex + 1;
      }
      StripIs(im, sg, ci, iMcuRowNum, yoffset, yindex, m, more[|mcu|..]);
      assert more == mcu + more[|mcu|..];
    }

    /** A real block. */
    method Fetch(ci: nat, yoffset: nat, yindex: nat, m: nat, x: nat) returns (b: Block)
      requires AreSupplied(im, wholeImage) && InScan(im, sg, ci, iMcuRowNum, yoffset, yindex, m, x)
      requires RealRow(im, sg, ci, iMcuRowNum, yoffset, yindex) && x < BlockCount(sg, ci, m)
      ensures b == BlockAt(im, sg, ci, iMcuRowNum, yoffset, yindex, m, x)
    {
      hide IsScanGeom, InImage, RowsBefore, RowsIn, Padded, Real, BlockAt;
      CompFacts(im.frame, sg, ci);
      var c := sg.comps[ci].index;
      BlockRow(im, sg, ci, iMcuRowNum, yoffset, yindex);
      BlockColumns(im, sg, ci, m, x);
      RealAt(im, sg, ci, iMcuRowNum, yoffset, yindex, m, x);
      b := wholeImage[c][iMcuRowNum * im.frame.comps[c].vSamp + yindex + yoffset, m * sg.comps[ci].mcuWidth + x];
    }

    /** The MCU in column m of MCU row yoffset of the current interleaved MCU row. */
    method GatherMcu(yoffset: nat, m: nat) returns (mcu: Mcu)
      requires AreSupplied(im, wholeImage) && ZeroAc() && IsScanGeom(im.frame, sg)
      requires iMcuRowNum < im.frame.totalIMcuRows && yoffset < RowsIn(im, sg, iMcuRowNum) && m < sg.mcusPerRow
      modifies dummyBuffer
      ensures ZeroAc() && InImage(im.frame, sg) && mcu == McuAt(im, sg, RowsBefore(im, sg, iMcuRowNum) + yoffset, m)
    {
      hide AreSupplied, IsScanGeom, InImage, RowsBefore, RowsIn, NotEmpty, Strip, TransController.ZeroAc, BlockAt,
           McuBlocks;
      ScanInImage(im.frame, sg);
      ghost var r := RowsBefore(im, sg, iMcuRowNum) + yoffset;
      mcu := [];
      for ci: nat := 0 to |sg.comps|
        invariant ZeroAc() && mcu == CompBlocks(im, sg, r, m, ci)
      {
        CompFacts(im.frame, sg, ci);
        IsInImage(im.frame, sg, ci);
        mcu := AppendComponent(mcu, ci, yoffset, m);
      }
    }

    method AppendComponent(mcu: seq<Block>, ci: nat, yoffset: nat, m: nat) returns (more: seq<Block>)
      requires AreSupplied(im, wholeImage) && ZeroAc() && InScan(im, sg, ci, iMcuRowNum, yoffset, 0, m, 0)
      requires NotEmpty(im.frame, sg.comps[ci].index) && |mcu| == McuBlocks(sg.comps, ci)
      modifies dummyBuffer
      ensures ZeroAc()
      ensures more == mcu + Strips(im, sg.comps[ci], RowsBefore(im, sg, iMcuRowNum) + yoffset, m,
              sg.comps[ci].mcuHeight)
    {
      hide AreSupplied, IsScanGeom, InImage, RowsBefore, RowsIn, NotEmpty, Strip, TransController.ZeroAc, BlockAt,
           McuBlocks;
      ghost var r := RowsBefore(im, sg, iMcuRowNum) + yoffset;
      ScanFits(im.frame, sg, ci);
      more := mcu;
      for yindex: nat := 0 to sg.comps[ci].mcuHeight
        invariant ZeroAc() && more == mcu + Strips(im, sg.comps[ci], r, m, yindex)
        invariant yindex > 0 ==> |more| > 0 && more[|more| - 1]
                                               == BlockAt(im, sg, ci, iMcuRowNum, yoffset, yindex - 1, m,
                                                   sg.comps[ci].mcuWidth - 1)
      {
        McuFits(sg.comps, ci, yindex);
        more := AppendStrip(more, ci, yoffset, yindex, m);
        LastOfStrip(im, sg, ci, iMcuRowNum, yoffset, yindex, m);
      }
    }

    /** compress_output of the transcoder. */
    method CompressOutput() returns (ok: bool)
      requires Valid() && iMcuRowNum < im.frame.totalIMcuRows
      modifies `iMcuRowNum, `mcuCtr, `mcuVertOffset, `mcuRowsPerIMcuRow, entropy, dummyBuffer
      ensures Valid() && iMcuRowNum == old(iMcuRowNum) + (if ok then 1 else 0)
      ensures |entropy.willing| <= |old(entropy.willing)| && (!ok ==> |entropy.willing| < |old(entropy.willing)|)
    {
      hide AreSupplied, IsScanGeom, InImage, RowsBefore, RowsIn, SentBefore, Sent, McuAt, TransController.ZeroAc;
      ScanInImage(im.frame, sg);
      ghost var i := iMcuRowNum;
      var first: nat := mcuCtr;
      for yoffset: nat := mcuVertOffset to mcuRowsPerIMcuRow
        invariant iMcuRowNum == i && mcuRowsPerIMcuRow == RowsIn(im, sg, i) && first < sg.mcusPerRow
        invariant entropy.taken == SentBefore(im, sg, i, yoffset, first) && (yoffset == mcuRowsPerIMcuRow ==>
                  first == 0)
        invariant |entropy.willing| <= |old(entropy.willing)| && ZeroAc()
      {
        for mcuCol: nat := first to sg.mcusPerRow
          invariant iMcuRowNum == i && mcuRowsPerIMcuRow == RowsIn(im, sg, i)
          invariant entropy.taken == SentBefore(im, sg, i, yoffset, mcuCol)
          invariant |entropy.willing| <= |old(entropy.willing)| && ZeroAc()
        {
          var mcu := GatherMcu(yoffset, mcuCol);
          NextMcu(im, sg, i, yoffset, mcuCol);
          var took := entropy.EncodeMcu(mcu);
          if !took {
            mcuVertOffset := yoffset;
            mcuCtr := mcuCol;
            return false;
          }
        }
        NextRow(im, sg, i, yoffset);
        first := 0;
      }
      NextIMcuRow(im, sg, i);
      iMcuRowNum := iMcuRowNum + 1;
      StartIMcuRow();
      RowsInPositive(im, sg, iMcuRowNum);
      return true;
    }
  }

  lemma LastOfStrip(im: Image, sg: ScanGeom, ci: nat, i: nat, yoffset: nat, yindex: nat, m: nat)
    requires InScan(im, sg, ci, i, yoffset, yindex, m, 0) && NotEmpty(im.frame, sg.comps[ci].index)
    ensures var w := sg.comps[ci].mcuWidth;
            Strip(im, sg.comps[ci], RowsBefore(im, sg, i) + yoffset, m, yindex, w)[w - 1]
            == BlockAt(im, sg, ci, i, yoffset, yindex, m, w - 1)
  {
    hide IsScanGeom, InImage, RowsBefore, RowsIn, Padded;
    StripAt(im, sg.comps[ci], RowsBefore(im, sg, i) + yoffset, m, yindex, sg.comps[ci].mcuWidth,
        sg.comps[ci].mcuWidth - 1);
  }

  /** A dummy block repeats the DC value of the block before it in the MCU. */
  lemma DummyAt(im: Image, sg: ScanGeom, ci: nat, i: nat, yoffset: nat, yindex: nat, m: nat, x: nat)
    requires InScan(im, sg, ci, i, yoffset, yindex, m, x)
    requires RealRow(im, sg, ci, i, yoffset, yindex) ==> x >= BlockCount(sg, ci, m)
    ensures if x > 0 then
              BlockAt(im, sg, ci, i, yoffset, yindex, m, x) == Dummy(BlockAt(im, sg, ci, i, yoffset, yindex, m,
                  x - 1)[0])
            else yindex > 0 && BlockAt(im, sg, ci, i, yoffset, yindex, m, x)
                 == Dummy(BlockAt(im, sg, ci, i, yoffset, yindex - 1, m, sg.comps[ci].mcuWidth - 1)[0])
  {
    hide IsScanGeom, InImage, BlockAt, ZeroBlock, Dummy, RowsIn;
    if RealRow(im, sg, ci, i, yoffset, yindex) {
      RightAt(im, sg, ci, i, yoffset, yindex, m, x);
      DummyDc(BlockAt(im, sg, ci, i, yoffset, yindex, m, x - 1)[0]);
    } else {
      BottomAt(im, sg, ci, i, yoffset, yindex, m, x);
      var dc := BlockAt(im, sg, ci, i, yoffset, yindex - 1, m, sg.comps[ci].mcuWidth - 1)[0];
      DummyDc(dc);
      if x > 0 {
        BottomAt(im, sg, ci, i, yoffset, yindex, m, x - 1);
      }
    }
  }

  lemma SetDc(b: Block, dc: JCOEF)
    requires b == Dummy(b[0])
    ensures b[0 := dc] == Dummy(dc)
  {
  }

  /** The transcoder sends the MCU stream of the scan, whatever the encoder refuses on the way. */
  method Transcode(im: Image, arrays: seq<array2<Block>>, sg: ScanGeom, willing: seq<bool>) returns (sent: Mcus)
    requires AreSupplied(im, arrays) && IsScanGeom(im.frame, sg)
    ensures InImage(im.frame, sg) && sent == ScanMcus(im, sg)
  {
    hide IsScanGeom, InImage, SentBefore, ScanMcus, RowsIn, AreSupplied, TransController.ZeroAc;
    ScanInImage(im.frame, sg);
    var entropy := new EntropyEncoder(willing);
    var coef := new TransController(im, arrays, sg, entropy);
    while coef.iMcuRowNum < im.frame.totalIMcuRows
      invariant coef.im == im && coef.wholeImage == arrays && coef.sg == sg && coef.entropy == entropy
      invariant fresh(coef) && fresh(entropy) && fresh(coef.dummyBuffer) && coef.Valid()
      decreases im.frame.totalIMcuRows - coef.iMcuRowNum, |entropy.willing|
    {
      var ok := coef.CompressOutput();
    }
    sent := entropy.taken;
  }

  /** The three controllers give the entropy coder the same MCUs, those of the padded image in scan order, in any
      frame and for any refusals. */
  method ControllersAgree(im: Image, sg: ScanGeom, arrays: seq<array2<Block>>, willing: seq<seq<bool>>)
    returns (direct: Mcus, buffered: Mcus, later: Mcus, transcoded: Mcus)
    requires IsScanGeom(im.frame, sg) && AreSupplied(im, arrays) && |willing| == 4
    ensures InImage(im.frame, sg) && direct == buffered == later == transcoded == ScanMcus(im, sg)
  {
    hide IsScanGeom, InImage, ScanMcus, AreSupplied;
    direct := SendDirectly(im, sg, willing[0]);
    buffered, later := SendFromBuffer(im, sg, sg, willing[1], willing[2]);
    transcoded := Transcode(im, arrays, sg, willing[3]);
  }
}
