// The buffered coefficient controller: a first pass that fills whole-image arrays, dummy blocks and all, and
// passes that send blocks out of the arrays.
module BufferedController {
  import opened Coefs
  import opened Powers
  import opened Segments
  import opened Geometry
  import opened McuLayout
  import opened CoefController

  /** The padded size of an array: a multiple of the sampling factor. */
  function RoundUp(n: nat, h: nat): nat
    requires h > 0
  {
    DivRoundUp(n, h) * h
  }

  /** Row y of the array of component c is row y of the padded component. */
  ghost predicate HasRow(im: Image, buffer: array2<Block>, c: nat, y: nat)
    reads buffer
  {
    NotEmpty(im.frame, c) && y < buffer.Length0 && forall x :: 0 <= x < buffer.Length1 ==>
        buffer[y, x] == Padded(im, c, y, x)
  }

  /** So are its first rows. */
  ghost predicate Holds(im: Image, buffer: array2<Block>, c: nat, rows: nat)
    reads buffer
  {
    forall y: nat :: y < rows ==> HasRow(im, buffer, c, y)
  }

  /** Every component holds its rows of the first n interleaved MCU rows. */
  ghost predicate Loaded(im: Image, arrays: seq<array2<Block>>, n: nat)
    requires AreArrays(im, arrays)
    reads arrays
  {
    forall c :: 0 <= c < |arrays| ==> Holds(im, arrays[c], c, n * im.frame.comps[c].vSamp)
  }

  ghost predicate AreArrays(im: Image, arrays: seq<array2<Block>>) {
    && IsFrame(im.frame) && |arrays| == |im.frame.comps|
    && (forall c :: 0 <= c < |arrays| ==> NotEmpty(im.frame, c))
    && (forall c :: 0 <= c < |arrays| ==> arrays[c].Length0 == im.frame.totalIMcuRows * im.frame.comps[c].vSamp
                                           && arrays[c].Length1 == RoundUp(im.frame.comps[c].widthInBlocks,
                                               im.frame.comps[c].hSamp))
    && (forall c, d :: 0 <= c < d < |arrays| ==> arrays[c] != arrays[d])
  }

  // ----- the first pass

  class BufferedController {
    const im: Image
    const wholeImage: seq<array2<Block>>
    var sg: ScanGeom
    var entropy: EntropyEncoder
    var iMcuRowNum: nat
    var mcuCtr: nat
    var mcuVertOffset: nat
    var mcuRowsPerIMcuRow: nat
    ghost var loaded: nat

    /** The arrays hold what has been loaded, and the counters tell what was sent in this pass. */
    ghost predicate Valid()
      reads this, entropy, wholeImage
    {
      && AreArrays(im, wholeImage) && loaded <= im.frame.totalIMcuRows && Loaded(im, wholeImage, loaded)
      && InStep(im, sg, iMcuRowNum, mcuVertOffset, mcuCtr, mcuRowsPerIMcuRow, entropy.taken)
    }

    constructor (im: Image, arrays: seq<array2<Block>>, sg: ScanGeom, entropy: EntropyEncoder)
      requires AreArrays(im, arrays) && IsScanGeom(im.frame, sg) && entropy.taken == []
      ensures this.im == im && wholeImage == arrays && this.sg == sg && this.entropy == entropy
      ensures Valid() && iMcuRowNum == 0 && loaded == 0
    {
      this.im := im;
      wholeImage := arrays;
      loaded := 0;
      this.sg := sg;
      this.entropy := entropy;
      new;
      iMcuRowNum := 0;
      AtFirst(im, sg);
      StartIMcuRow();
    }

    /** start_pass_coef: a new scan from the arrays. */
    method StartPass(sg: ScanGeom, entropy: EntropyEncoder)
      requires AreArrays(im, wholeImage) && loaded <= im.frame.totalIMcuRows && Loaded(im, wholeImage, loaded)
      requires IsScanGeom(im.frame, sg) && entropy.taken == []
      modifies `sg, `entropy, `iMcuRowNum, `mcuCtr, `mcuVertOffset, `mcuRowsPerIMcuRow
      ensures Valid() && this.sg == sg && this.entropy == entropy && iMcuRowNum == 0
    {
      this.sg := sg;
      this.entropy := entropy;
      iMcuRowNum := 0;
      AtFirst(im, sg);
      StartIMcuRow();
    }

    /** start_iMCU_row. */
    method StartIMcuRow()
      requires IsScanGeom(im.frame, sg)
      modifies `mcuCtr, `mcuVertOffset, `mcuRowsPerIMcuRow
      ensures mcuCtr == 0 && mcuVertOffset == 0
      ensures iMcuRowNum < im.frame.totalIMcuRows ==> mcuRowsPerIMcuRow == RowsIn(im, sg, iMcuRowNum)
    {
      mcuRowsPerIMcuRow := RowsIn(im, sg, iMcuRowNum);
      mcuCtr := 0;
      mcuVertOffset := 0;
    }

    /** One row of a component, real blocks and then dummy ones at the right edge. */
    method FillRow(c: nat, y: nat, top: nat, startRow: nat, ndummy: nat)
      requires AreArrays(im, wholeImage) && c < |wholeImage| && NotEmpty(im.frame, c)
      requires y < im.frame.comps[c].heightInBlocks && y < wholeImage[c].Length0
      requires top + startRow == y * im.frame.comps[c].dctV
      requires im.frame.comps[c].widthInBlocks + ndummy == wholeImage[c].Length1
      modifies wholeImage[c]
      ensures HasRow(im, wholeImage[c], c, y)
      ensures forall z: nat :: z != y && old(HasRow(im, wholeImage[c], c, z)) ==> HasRow(im, wholeImage[c], c, z)
    {
      hide AreArrays, IsFrame, ZeroBlock, Dummy, Padded;
      var buffer, across := wholeImage[c], im.frame.comps[c].widthInBlocks;
      for x: nat := 0 to across
        invariant forall k :: 0 <= k < x ==> buffer[y, k] == Padded(im, c, y, k)
        invariant forall z, k :: 0 <= z < buffer.Length0 && 0 <= k < buffer.Length1 && z != y ==>
                  buffer[z, k] == old(buffer[z, k])
      {
        PaddedRow(im, c, y, x);
        buffer[y, x] := im.dct(c, top + startRow, x * im.frame.comps[c].dctH);
      }
      if ndummy > 0 {
        var lastDC := buffer[y, across - 1][0];
        for bi: nat := 0 to ndummy
          invariant forall k :: 0 <= k < across + bi ==> buffer[y, k] == Padded(im, c, y, k)
          invariant forall z, k :: 0 <= z < buffer.Length0 && 0 <= k < buffer.Length1 && z != y ==>
                    buffer[z, k] == old(buffer[z, k])
        {
          PaddedRow(im, c, y, across + bi);
          DummyDc(lastDC);
          buffer[y, across + bi] := ZeroBlock()[0 := lastDC];
        }
      }
    }

    /** A row of dummy blocks below the image: each MCU repeats the last DC value of the row above. */
    method FillDummyRow(c: nat, y: nat, mcusAcross: nat)
      requires AreArrays(im, wholeImage) && c < |wholeImage| && NotEmpty(im.frame, c)
      requires im.frame.comps[c].heightInBlocks <= y < wholeImage[c].Length0
      requires mcusAcross * im.frame.comps[c].hSamp == wholeImage[c].Length1
      requires HasRow(im, wholeImage[c], c, y - 1)
      modifies wholeImage[c]
      ensures HasRow(im, wholeImage[c], c, y)
      ensures forall z: nat :: z != y && old(HasRow(im, wholeImage[c], c, z)) ==> HasRow(im, wholeImage[c], c, z)
    {
      hide AreArrays, IsFrame, ZeroBlock, Dummy, Padded, LastInGroup;
      var buffer := wholeImage[c];
      var h: nat := im.frame.comps[c].hSamp;
      var at: nat := 0;
      for mcu: nat := 0 to mcusAcross
        invariant at == mcu * h <= buffer.Length1
        invariant forall x :: 0 <= x < at ==> buffer[y, x] == Padded(im, c, y, x)
        invariant forall z, x :: 0 <= z < buffer.Length0 && 0 <= x < buffer.Length1 && z != y ==>
                  buffer[z, x] == old(buffer[z, x])
      {
        MulAdd(mcu, 1, h);
        MulMonotone(mcu + 1, mcusAcross, h);
        var lastDC := buffer[y - 1, at + h - 1][0];
        for bi: nat := 0 to h
          invariant forall x :: 0 <= x < at + bi ==> buffer[y, x] == Padded(im, c, y, x)
          invariant forall z, x :: 0 <= z < buffer.Length0 && 0 <= x < buffer.Length1 && z != y ==>
                    buffer[z, x] == old(buffer[z, x])
        {
          PaddedRow(im, c, y, at + bi);
          GroupOf(mcu, h, bi);
          DummyDc(lastDC);
          buffer[y, at + bi] := ZeroBlock()[0 := lastDC];
        }
        at := at + h;
      }
    }

    /** Loads interleaved MCU row i of component c. */
    method LoadComponent(c: nat, i: nat)
      requires AreArrays(im, wholeImage) && c < |wholeImage| && i < im.frame.totalIMcuRows
      requires Holds(im, wholeImage[c], c, i * im.frame.comps[c].vSamp)
      modifies wholeImage[c]
      ensures Holds(im, wholeImage[c], c, (i + 1) * im.frame.comps[c].vSamp)
    {
      hide IsFrame, ZeroBlock, Dummy, Padded, HasRow;
      var compptr := im.frame.comps[c];
      LoadSizes(im, wholeImage, c, i);
      var h: nat, v: nat := compptr.hSamp, compptr.vSamp;
      RoundingUp(compptr.widthInBlocks, h);
      var first := i * v;
      var blockRows;
      if i < im.frame.totalIMcuRows - 1 {
        blockRows := v;
      } else {
        blockRows := compptr.heightInBlocks % v;
        if blockRows == 0 {
          blockRows := v;
        }
      }
      var ndummy: nat := compptr.widthInBlocks % h;
      if ndummy > 0 {
        ndummy := h - ndummy;
      }
      for blockRow: nat := 0 to blockRows
        invariant Holds(im, wholeImage[c], c, first + blockRow)
      {
        MulAdd(first, blockRow, compptr.dctV);
        FillRow(c, first + blockRow, first * compptr.dctV, blockRow * compptr.dctV, ndummy);
      }
      if i == im.frame.totalIMcuRows - 1 {
        var mcusAcross := (compptr.widthInBlocks + ndummy) / h;
        for blockRow: nat := blockRows to v
          invariant Holds(im, wholeImage[c], c, first + blockRow)
        {
          FillDummyRow(c, first + blockRow, mcusAcross);
        }
      }
    }

    /** Loads interleaved MCU row i of every component. */
    method LoadRow(i: nat)
      requires AreArrays(im, wholeImage) && i < im.frame.totalIMcuRows && Loaded(im, wholeImage, i)
      modifies wholeImage
      ensures Loaded(im, wholeImage, i + 1)
    {
      hide IsFrame, Holds;
      for c: nat := 0 to |wholeImage|
        invariant forall d :: 0 <= d < |wholeImage| ==>
                    Holds(im, wholeImage[d], d, (if d < c then i + 1 else i) * im.frame.comps[d].vSamp)
      {
        LoadComponent(c, i);
      }
    }

    /** One row of blocks of component ci, out of its array. */
    method AppendStrip(mcu: seq<Block>, ci: nat, yoffset: nat, yindex: nat, m: nat) returns (more: seq<Block>)
      requires AreArrays(im, wholeImage) && loaded <= im.frame.totalIMcuRows && Loaded(im, wholeImage, loaded)
      requires InScan(im, sg, ci, iMcuRowNum, yoffset, yindex, m, 0) && iMcuRowNum < loaded
      requires NotEmpty(im.frame, sg.comps[ci].index)
      ensures more == mcu + Strip(im, sg.comps[ci], RowsBefore(im, sg, iMcuRowNum) + yoffset, m, yindex,
              sg.comps[ci].mcuWidth)
    {
      hide IsFrame, IsScanGeom, InImage, RowsBefore, RowsIn, Padded, AreArrays, Loaded, Strip, NotEmpty, Stored;
      CompFacts(im.frame, sg, ci);
      OneForEach(im, wholeImage);
      var sc := sg.comps[ci];
      var buffer := wholeImage[sc.index];
      var row := iMcuRowNum * im.frame.comps[sc.index].vSamp + yindex + yoffset;
      var startCol := m * sc.mcuWidth;
      ghost var r := RowsBefore(im, sg, iMcuRowNum) + yoffset;
      more := mcu;
      NoStrip(im, sc, r, m, yindex);
      for xindex: nat := 0 to sc.mcuWidth
        invariant more == mcu + Strip(im, sc, r, m, yindex, xindex)
      {
        OneMoreBlock(im, sc, r, m, yindex, xindex);
        InBuffer(im, wholeImage, sg, loaded, ci, iMcuRowNum, yoffset, yindex, m, xindex, row);
        Unstored(im, sg, ci, buffer, row, r, yindex, m, xindex);
        more := more + [buffer[row, startCol + xindex]];
      }
    }

    /** The MCU in column m of MCU row yoffset of the current interleaved MCU row. */
    method GatherMcu(yoffset: nat, m: nat) returns (mcu: Mcu)
      requires AreArrays(im, wholeImage) && loaded <= im.frame.totalIMcuRows && Loaded(im, wholeImage, loaded)
      requires IsScanGeom(im.frame, sg) && iMcuRowNum < loaded
      requires yoffset < RowsIn(im, sg, iMcuRowNum) && m < sg.mcusPerRow
      ensures InImage(im.frame, sg) && mcu == McuAt(im, sg, RowsBefore(im, sg, iMcuRowNum) + yoffset, m)
    {
      hide AreArrays, Loaded, IsScanGeom, InImage, RowsBefore, RowsIn, NotEmpty, Strip;
      ScanInImage(im.frame, sg);
      ghost var r := RowsBefore(im, sg, iMcuRowNum) + yoffset;
      mcu := [];
      for ci: nat := 0 to |sg.comps|
        invariant mcu == CompBlocks(im, sg, r, m, ci)
      {
        CompFacts(im.frame, sg, ci);
        IsInImage(im.frame, sg, ci);
        ghost var before := mcu;
        for yindex: nat := 0 to sg.comps[ci].mcuHeight
          invariant mcu == before + Strips(im, sg.comps[ci], r, m, yindex)
        {
          mcu := AppendStrip(mcu, ci, yoffset, yindex, m);
        }
      }
    }

    /** compress_output: one interleaved MCU row out of the arrays, or as much of it as the encoder will take. */
    method CompressOutput() returns (ok: bool)
      requires Valid() && iMcuRowNum < loaded
      modifies `iMcuRowNum, `mcuCtr, `mcuVertOffset, `mcuRowsPerIMcuRow, entropy
      ensures Valid() && iMcuRowNum == old(iMcuRowNum) + (if ok then 1 else 0)
      ensures |entropy.willing| <= |old(entropy.willing)| && (!ok ==> |entropy.willing| < |old(entropy.willing)|)
    {
      hide AreArrays, Loaded, IsScanGeom, InImage, RowsBefore, RowsIn, SentBefore, Sent, McuAt;
      ScanInImage(im.frame, sg);
      ghost var i := iMcuRowNum;
      var first: nat := mcuCtr;
      for yoffset: nat := mcuVertOffset to mcuRowsPerIMcuRow
        invariant iMcuRowNum == i && mcuRowsPerIMcuRow == RowsIn(im, sg, i) && first < sg.mcusPerRow
        invariant entropy.taken == SentBefore(im, sg, i, yoffset, first) && (yoffset == mcuRowsPerIMcuRow ==>
                  first == 0)
        invariant |entropy.willing| <= |old(entropy.willing)|
      {
        for mcuCol: nat := first to sg.mcusPerRow
          invariant iMcuRowNum == i && mcuRowsPerIMcuRow == RowsIn(im, sg, i)
          invariant entropy.taken == SentBefore(im, sg, i, yoffset, mcuCol)
          invariant |entropy.willing| <= |old(entropy.willing)|
        {
          var mcu := GatherMcu(yoffset, mcuCol);
          NextMcu(im, sg, i, yoffset, mcuCol);
          var took := entropy.EncodeMcu(mcu);
          if !took {
            mcuVertOffset := yoffset;
            mcuCtr := mcuCol;
            return false;
          }
        }
        NextRow(im, sg, i, yoffset);
        first := 0;
      }
      NextIMcuRow(im, sg, i);
      iMcuRowNum := iMcuRowNum + 1;
      StartIMcuRow();
      RowsInPositive(im, sg, iMcuRowNum);
      return true;
    }

    /** compress_first_pass: loads an interleaved MCU row, again after a refusal, and sends it. */
    method CompressFirstPass() returns (ok: bool)
      requires Valid() && iMcuRowNum < im.frame.totalIMcuRows && iMcuRowNum <= loaded
      modifies `loaded, `iMcuRowNum, `mcuCtr, `mcuVertOffset, `mcuRowsPerIMcuRow, entropy, wholeImage
      ensures Valid() && iMcuRowNum == old(iMcuRowNum) + (if ok then 1 else 0) <= loaded
      ensures |entropy.willing| <= |old(entropy.willing)| && (!ok ==> |entropy.willing| < |old(entropy.willing)|)
    {
      hide AreArrays, Loaded, IsScanGeom, InStep;
      LoadedLess(im, wholeImage, loaded, iMcuRowNum);
      LoadRow(iMcuRowNum);
      loaded := iMcuRowNum + 1;
      ok := CompressOutput();
    }
  }

  lemma LoadedLess(im: Image, arrays: seq<array2<Block>>, n: nat, i: nat)
    requires AreArrays(im, arrays) && i <= n && Loaded(im, arrays, n)
    ensures Loaded(im, arrays, i)
  {
    hide HasRow, DivRoundUp;
    forall c | 0 <= c < |arrays|
      ensures im.frame.comps[c].vSamp > 0 && i * im.frame.comps[c].vSamp >= 0
      ensures Holds(im, arrays[c], c, i * im.frame.comps[c].vSamp)
    {
      SamplingPositive(im.frame, c);
      MulMonotone(i, n, im.frame.comps[c].vSamp);
    }
  }

  /** The array holds the block an MCU needs. */
  ghost predicate Stored(im: Image, sg: ScanGeom, ci: nat, buffer: array2<Block>, row: int, r: nat, yindex: nat,
                         m: nat, x: nat)
    reads buffer
  {
    && ci < |sg.comps| && NotEmpty(im.frame, sg.comps[ci].index) && 0 <= row < buffer.Length0
    && 0 <= r * sg.comps[ci].mcuHeight && 0 <= m * sg.comps[ci].mcuWidth &&
        m * sg.comps[ci].mcuWidth + x < buffer.Length1
    && buffer[row, m * sg.comps[ci].mcuWidth + x]
       == Padded(im, sg.comps[ci].index, r * sg.comps[ci].mcuHeight + yindex, m * sg.comps[ci].mcuWidth + x)
  }

  lemma Unstored(im: Image, sg: ScanGeom, ci: nat, buffer: array2<Block>, row: int, r: nat, yindex: nat, m: nat, x: nat)
    requires Stored(im, sg, ci, buffer, row, r, yindex, m, x)
    ensures 0 <= row < buffer.Length0 && 0 <= m * sg.comps[ci].mcuWidth + x < buffer.Length1
    ensures NotEmpty(im.frame, sg.comps[ci].index) && 0 <= r * sg.comps[ci].mcuHeight
    ensures buffer[row, m * sg.comps[ci].mcuWidth + x]
            == Padded(im, sg.comps[ci].index, r * sg.comps[ci].mcuHeight + yindex, m * sg.comps[ci].mcuWidth + x)
  {
  }

  lemma InBuffer(im: Image, arrays: seq<array2<Block>>, sg: ScanGeom, n: nat, ci: nat, i: nat, yoffset: nat,
                 yindex: nat, m: nat,
                 x: nat, row: int)
    requires AreArrays(im, arrays) && n <= im.frame.totalIMcuRows && Loaded(im, arrays, n)
    requires InScan(im, sg, ci, i, yoffset, yindex, m, x) && i < n && NotEmpty(im.frame, sg.comps[ci].index)
    requires sg.comps[ci].index < |arrays| && row == i * im.frame.comps[sg.comps[ci].index].vSamp + yindex + yoffset
    ensures Stored(im, sg, ci, arrays[sg.comps[ci].index], row, RowsBefore(im, sg, i) + yoffset, yindex, m, x)
  {
    hide IsFrame, IsScanGeom, InImage, RowsBefore, RowsIn, Padded, AreArrays, Loaded;
    CompFacts(im.frame, sg, ci);
    OneForEach(im, arrays);
    BlockRow(im, sg, ci, i, yoffset, yindex);
    MulMonotone(0, i, im.frame.comps[sg.comps[ci].index].vSamp);
    MulMonotone(0, m, sg.comps[ci].mcuWidth);
    InArray(im, arrays, sg, n, ci, i, yoffset + yindex, m);
  }

  lemma NoStrip(im: Image, sc: ScanComp, r: nat, m: nat, yindex: nat)
    requires NotEmpty(im.frame, sc.index)
    ensures Strip(im, sc, r, m, yindex, 0) == []
  {
  }

  lemma OneMoreBlock(im: Image, sc: ScanComp, r: nat, m: nat, yindex: nat, n: nat)
    requires NotEmpty(im.frame, sc.index)
    ensures 0 <= r * sc.mcuHeight && 0 <= m * sc.mcuWidth
    ensures Strip(im, sc, r, m, yindex, n + 1)
            == Strip(im, sc, r, m, yindex, n) + [Padded(im, sc.index, r * sc.mcuHeight + yindex, m * sc.mcuWidth + n)]
  {
    MulMonotone(0, r, sc.mcuHeight);
    MulMonotone(0, m, sc.mcuWidth);
  }

  lemma OneForEach(im: Image, arrays: seq<array2<Block>>)
    requires AreArrays(im, arrays)
    ensures |arrays| == |im.frame.comps|
  {
  }

  /** The blocks an MCU needs are in the arrays. */
  lemma InArray(im: Image, arrays: seq<array2<Block>>, sg: ScanGeom, n: nat, ci: nat, i: nat, row: nat, m: nat)
    requires AreArrays(im, arrays) && Loaded(im, arrays, n) && i < n <= im.frame.totalIMcuRows
    requires IsScanGeom(im.frame, sg) && ci < |sg.comps| && m < sg.mcusPerRow
    requires sg.comps[ci].index < |im.frame.comps| && row < im.frame.comps[sg.comps[ci].index].vSamp
    requires i * im.frame.comps[sg.comps[ci].index].vSamp >= 0
    ensures var c, sc := sg.comps[ci].index, sg.comps[ci];
            && HasRow(im, arrays[c], c, i * im.frame.comps[c].vSamp + row)
            && m * sc.mcuWidth + sc.mcuWidth <= arrays[c].Length1
  {
    hide HasRow, IsScanGeom, IsFrame, RoundUp;
    CompFacts(im.frame, sg, ci);
    var c, sc := sg.comps[ci].index, sg.comps[ci];
    var v := im.frame.comps[c].vSamp;
    MulMonotone(i + 1, n, v);
    MulAdd(i, 1, v);
    assert Holds(im, arrays[c], c, n * v);
    RoundingUp(im.frame.comps[c].widthInBlocks, im.frame.comps[c].hSamp);
    MulAdd(m, 1, sc.mcuWidth);
    MulMonotone(m + 1, sg.mcusPerRow, sc.mcuWidth);
    RoomForMcus(im, sg, ci);
  }

  lemma RoomForMcus(im: Image, sg: ScanGeom, ci: nat)
    requires IsScanGeom(im.frame, sg) && ci < |sg.comps| && sg.comps[ci].index < |im.frame.comps|
    requires im.frame.comps[sg.comps[ci].index].hSamp > 0
    ensures sg.mcusPerRow * sg.comps[ci].mcuWidth
            <= RoundUp(im.frame.comps[sg.comps[ci].index].widthInBlocks, im.frame.comps[sg.comps[ci].index].hSamp)
  {
    CompFacts(im.frame, sg, ci);
    var c, sc := im.frame.comps[sg.comps[ci].index], sg.comps[ci];
    RoundingUp(c.widthInBlocks, c.hSamp);
    if Interleaved(sg) {
      MulAdd(sg.mcusPerRow, 1, sc.mcuWidth);
      RoundsUp(c.widthInBlocks, c.hSamp);
      Between(sg.mcusPerRow, c.widthInBlocks, DivRoundUp(c.widthInBlocks, c.hSamp), c.hSamp);
      MulMonotone(sg.mcusPerRow, DivRoundUp(c.widthInBlocks, c.hSamp), c.hSamp);
    }
  }

  lemma LoadSizes(im: Image, arrays: seq<array2<Block>>, c: nat, i: nat)
    requires AreArrays(im, arrays) && c < |arrays| && i < im.frame.totalIMcuRows
    ensures var co := im.frame.comps[c]; var last := Last(co.heightInBlocks, co.vSamp);
            && co.hSamp > 0 && co.vSamp > 0 && NotEmpty(im.frame, c)
            && (i + 1) * co.vSamp == i * co.vSamp + co.vSamp <= arrays[c].Length0
            && (if i < im.frame.totalIMcuRows - 1 then (i + 1) * co.vSamp <= co.heightInBlocks
                else co.heightInBlocks == i * co.vSamp + last)
  {
    hide DivRoundUp;
    var co := im.frame.comps[c];
    SamplingPositive(im.frame, c);
    FitsCovering(im.frame, c);
    MulAdd(i, 1, co.vSamp);
    MulMonotone(i + 1, im.frame.totalIMcuRows, co.vSamp);
    if i < im.frame.totalIMcuRows - 1 {
      MulMonotone(i + 1, im.frame.totalIMcuRows - 1, co.vSamp);
    }
  }

  /** The dummy blocks at the right make whole groups. */
  lemma RoundingUp(n: nat, h: nat)
    requires h > 0
    ensures var d := if n % h == 0 then 0 else h - n % h;
            n + d == RoundUp(n, h) == (n + d) / h * h
  {
    var q, r := n / h, n % h;
    assert n == q * h + r;
    MulAdd(q, 1, h);
    if r == 0 {
      DivModUnique(n + h - 1, h, q, h - 1);
      DivModUnique(n, h, q, 0);
    } else {
      DivModUnique(n + h - 1, h, q + 1, r - 1);
      DivModUnique(n + (h - r), h, q + 1, 0);
    }
  }

  // ----- whole passes

  /** The arrays of jinit_c_coef_controller, padded to multiples of the sampling factors. */
  method NewArrays(im: Image) returns (arrays: seq<array2<Block>>)
    requires IsFrame(im.frame)
    ensures AreArrays(im, arrays) && forall c :: 0 <= c < |arrays| ==> fresh(arrays[c])
  {
    arrays := [];
    for c: nat := 0 to |im.frame.comps|
      invariant |arrays| == c && forall d :: 0 <= d < c ==>
                  fresh(arrays[d]) && NotEmpty(im.frame, d)
                  && arrays[d].Length0 == im.frame.totalIMcuRows * im.frame.comps[d].vSamp
                  && arrays[d].Length1 == RoundUp(im.frame.comps[d].widthInBlocks, im.frame.comps[d].hSamp)
      invariant forall d, e :: 0 <= d < e < c ==> arrays[d] != arrays[e]
    {
      var compptr := im.frame.comps[c];
      SamplingPositive(im.frame, c);
      FitsCovering(im.frame, c);
      var height := RoundUp(compptr.heightInBlocks, compptr.vSamp);
      LastRounds(compptr.heightInBlocks, compptr.vSamp, im.frame.totalIMcuRows);
      var a := new Block[height, RoundUp(compptr.widthInBlocks, compptr.hSamp)]((y, x) => ZeroBlock());
      arrays := arrays + [a];
    }
  }

  lemma LastRounds(n: nat, v: nat, groups: nat)
    requires v > 0 && groups > 0 && n == (groups - 1) * v + Last(n, v)
    ensures RoundUp(n, v) == groups * v
  {
    MulAdd(groups, 1, v);
    RoundsUp(n, v);
    var q := DivRoundUp(n, v);
    Between(q, n, groups, v);
    Between(groups, n, q, v);
  }

  /** The first pass fills the arrays and sends the first scan, and any later scan goes out of the arrays,
      whatever the encoder refuses on the way. */
  method SendFromBuffer(im: Image, first: ScanGeom, later: ScanGeom, willing: seq<bool>, willingLater: seq<bool>)
    returns (sent: Mcus, sentLater: Mcus)
    requires IsScanGeom(im.frame, first) && IsScanGeom(im.frame, later)
    ensures InImage(im.frame, first) && sent == ScanMcus(im, first)
    ensures InImage(im.frame, later) && sentLater == ScanMcus(im, later)
  {
    hide IsScanGeom, InImage, IsFrame, AreArrays, Loaded, SentBefore, ScanMcus, RowsIn;
    ScanInImage(im.frame, first);
    ScanInImage(im.frame, later);
    FrameOf(im.frame, first);
    var arrays := NewArrays(im);
    var entropy := new EntropyEncoder(willing);
    var coef := new BufferedController(im, arrays, first, entropy);
    while coef.iMcuRowNum < im.frame.totalIMcuRows
      invariant coef.im == im && coef.wholeImage == arrays && coef.sg == first && coef.entropy == entropy
      invariant fresh(coef) && fresh(entropy) && forall c :: 0 <= c < |arrays| ==> fresh(arrays[c])
      invariant coef.Valid() && coef.iMcuRowNum <= coef.loaded
      decreases im.frame.totalIMcuRows - coef.iMcuRowNum, |entropy.willing|
    {
      var ok := coef.CompressFirstPass();
    }
    sent := entropy.taken;
    var entropy2 := new EntropyEncoder(willingLater);
    coef.StartPass(later, entropy2);
    while coef.iMcuRowNum < im.frame.totalIMcuRows
      invariant coef.im == im && coef.wholeImage == arrays && coef.sg == later && coef.entropy == entropy2
      invariant fresh(coef) && fresh(entropy2)
      invariant coef.Valid() && coef.loaded == im.frame.totalIMcuRows
      decreases im.frame.totalIMcuRows - coef.iMcuRowNum, |entropy2.willing|
    {
      var ok := coef.CompressOutput();
    }
    sentLater := entropy2.taken;
  }

  lemma FrameOf(f: Frame, sg: ScanGeom)
    requires IsScanGeom(f, sg)
    ensures IsFrame(f)
  {
  }
}
