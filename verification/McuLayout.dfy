// The MCUs of a scan: which block, real or dummy, stands where.
module McuLayout {
  import opened Coefs
  import opened Powers
  import opened Segments
  import opened Geometry

  /** The image: the forward DCT, an unknown function of the component and of the block's first sample. */
  datatype Image = Image(frame: Frame, dct: (nat, nat, nat) -> Block)

  /** The block in row y and column x of component c. */
  function Real(im: Image, c: nat, y: nat, x: nat): Block
    requires c < |im.frame.comps|
  {
    im.dct(c, y * im.frame.comps[c].dctV, x * im.frame.comps[c].dctH)
  }

  function ZeroBlock(): Block {
    seq(64, _ => 0)
  }

  /** A block with zero AC coefficients. */
  function Dummy(dc: JCOEF): Block {
    ZeroBlock()[0 := dc]
  }

  predicate NotEmpty(f: Frame, c: nat) {
    c < |f.comps| && f.comps[c].widthInBlocks > 0 && f.comps[c].heightInBlocks > 0 && f.comps[c].hSamp > 0
  }

  /** The block in row y and column x of the component extended to whole MCUs. Blocks past the right edge repeat
      the DC value of the last block in their row; rows past the bottom repeat, within each MCU, that of the
      last block of the row above. */
  function Padded(im: Image, c: nat, y: nat, x: nat): Block
    requires NotEmpty(im.frame, c)
    decreases y
  {
    var co := im.frame.comps[c];
    if y < co.heightInBlocks then
      if x < co.widthInBlocks then Real(im, c, y, x) else Dummy(Real(im, c, y, co.widthInBlocks - 1)[0])
    else Dummy(Padded(im, c, y - 1, LastInGroup(x, co.hSamp))[0])
  }

  /** The last column of the group of h columns that x is in. */
  function LastInGroup(x: nat, h: nat): nat
    requires h > 0
  {
    x / h * h + (h - 1)
  }

  // ----- MCUs

  /** The components of the scan are components of the image, with blocks. */
  predicate InImage(f: Frame, sg: ScanGeom) {
    forall ci :: 0 <= ci < |sg.comps| ==> NotEmpty(f, sg.comps[ci].index)
  }

  lemma IsInImage(f: Frame, sg: ScanGeom, ci: nat)
    requires InImage(f, sg) && ci < |sg.comps|
    ensures NotEmpty(f, sg.comps[ci].index)
  {
  }

  /** The first n blocks of a row of blocks of a component, within the MCU in row r and column m. */
  function Strip(im: Image, sc: ScanComp, r: nat, m: nat, yindex: nat, n: nat): (s: seq<Block>)
    requires NotEmpty(im.frame, sc.index)
    ensures |s| == n
  {
    if n == 0 then []
    else
      Strip(im, sc, r, m, yindex, n - 1)
      + [Padded(im, sc.index, r * sc.mcuHeight + yindex, m * sc.mcuWidth + (n - 1))]
  }

  lemma CompFacts(f: Frame, sg: ScanGeom, ci: nat)
    requires IsScanGeom(f, sg) && ci < |sg.comps|
    ensures Fits(f, sg, sg.comps[ci])
    ensures var c := f.comps[sg.comps[ci].index];
            c.widthInBlocks > 0 && c.heightInBlocks > 0 && 0 < c.hSamp <= MAX_SAMP_FACTOR &&
                0 < c.vSamp <= MAX_SAMP_FACTOR
  {
    assert Fits(f, sg, sg.comps[ci]);
    SamplingPositive(f, sg.comps[ci].index);
  }

  lemma ScanInImage(f: Frame, sg: ScanGeom)
    requires IsScanGeom(f, sg)
    ensures InImage(f, sg)
  {
    forall ci | 0 <= ci < |sg.comps|
      ensures NotEmpty(f, sg.comps[ci].index)
    {
      CompFacts(f, sg, ci);
    }
  }

  /** Its first n rows of blocks. */
  function Strips(im: Image, sc: ScanComp, r: nat, m: nat, n: nat): (s: seq<Block>)
    requires NotEmpty(im.frame, sc.index)
    ensures |s| == n * sc.mcuWidth
  {
    if n == 0 then []
    else
      MulAdd(n - 1, 1, sc.mcuWidth);
      Strips(im, sc, r, m, n - 1) + Strip(im, sc, r, m, n - 1, sc.mcuWidth)
  }

  /** The blocks of the first n components of the MCU. */
  function CompBlocks(im: Image, sg: ScanGeom, r: nat, m: nat, n: nat): (s: seq<Block>)
    requires InImage(im.frame, sg) && n <= |sg.comps|
    ensures |s| == McuBlocks(sg.comps, n)
  {
    if n == 0 then []
    else
      MulSwap(sg.comps[n - 1].mcuWidth, sg.comps[n - 1].mcuHeight);
      CompBlocks(im, sg, r, m, n - 1) + Strips(im, sg.comps[n - 1], r, m, sg.comps[n - 1].mcuHeight)
  }

  lemma MulSwap(a: nat, b: nat)
    ensures a * b == b * a
  {
  }

  function McuAt(im: Image, sg: ScanGeom, r: nat, m: nat): Mcu
    requires InImage(im.frame, sg)
  {
    CompBlocks(im, sg, r, m, |sg.comps|)
  }

  /** The first n MCUs of MCU row r. */
  function RowMcus(im: Image, sg: ScanGeom, r: nat, n: nat): (s: Mcus)
    requires InImage(im.frame, sg)
    ensures |s| == n
  {
    if n == 0 then [] else RowMcus(im, sg, r, n - 1) + [McuAt(im, sg, r, n - 1)]
  }

  /** The MCUs of the first r MCU rows. */
  function Rows(im: Image, sg: ScanGeom, r: nat): Mcus
    requires InImage(im.frame, sg)
  {
    if r == 0 then [] else Rows(im, sg, r - 1) + RowMcus(im, sg, r - 1, sg.mcusPerRow)
  }

  /** The MCU stream of a scan. */
  function ScanMcus(im: Image, sg: ScanGeom): Mcus
    requires InImage(im.frame, sg)
  {
    Rows(im, sg, sg.mcuRows)
  }

  // ----- what is real and what is dummy

  /** MCU rows before interleaved MCU row i. */
  function RowsBefore(im: Image, sg: ScanGeom, i: nat): nat
    requires IsScanGeom(im.frame, sg)
  {
    CompFacts(im.frame, sg, 0);
    if Interleaved(sg) then i else i * im.frame.comps[sg.comps[0].index].vSamp
  }

  /** MCU_rows_per_iMCU_row, as start_iMCU_row sets it. */
  function RowsIn(im: Image, sg: ScanGeom, i: nat): nat
    requires IsScanGeom(im.frame, sg)
  {
    if Interleaved(sg) then 1
    else if i < im.frame.totalIMcuRows - 1 then
      CompFacts(im.frame, sg, 0);
      im.frame.comps[sg.comps[0].index].vSamp
    else sg.comps[0].lastRowHeight
  }

  /** The interleaved MCU rows partition the MCU rows of the scan. */
  lemma RowsPartition(im: Image, sg: ScanGeom, i: nat)
    requires IsScanGeom(im.frame, sg) && i < im.frame.totalIMcuRows
    ensures RowsIn(im, sg, i) > 0
    ensures i + 1 < im.frame.totalIMcuRows ==> RowsBefore(im, sg, i) + RowsIn(im, sg, i) == RowsBefore(im, sg, i + 1)
    ensures i + 1 == im.frame.totalIMcuRows ==> RowsBefore(im, sg, i) + RowsIn(im, sg, i) == sg.mcuRows
  {
    CompFacts(im.frame, sg, 0);
    MulAdd(i, 1, im.frame.comps[sg.comps[0].index].vSamp);
  }

  /** The row of blocks yindex of component ci, for the MCU row yoffset rows into interleaved MCU row i. */
  lemma BlockRow(im: Image, sg: ScanGeom, ci: nat, i: nat, yoffset: nat, yindex: nat)
    requires IsScanGeom(im.frame, sg) && ci < |sg.comps| && i < im.frame.totalIMcuRows
    requires yoffset < RowsIn(im, sg, i) && yindex < sg.comps[ci].mcuHeight
    ensures var sc, c := sg.comps[ci], im.frame.comps[sg.comps[ci].index];
            var y := (RowsBefore(im, sg, i) + yoffset) * sc.mcuHeight + yindex;
            && y == i * c.vSamp + yoffset + yindex && yoffset + yindex < c.vSamp
            && (y < c.heightInBlocks <==> i < im.frame.totalIMcuRows - 1 || yoffset + yindex < sc.lastRowHeight)
            && (y >= c.heightInBlocks ==> yindex > 0)
  {
    CompFacts(im.frame, sg, ci);
    CompFacts(im.frame, sg, 0);
    var c := im.frame.comps[sg.comps[ci].index];
    if i < im.frame.totalIMcuRows - 1 {
      MulMonotone(i + 1, im.frame.totalIMcuRows - 1, c.vSamp);
      MulAdd(i, 1, c.vSamp);
    }
  }

  /** The columns of component ci in MCU column m: real up to blockcnt. */
  lemma BlockColumns(im: Image, sg: ScanGeom, ci: nat, m: nat, x: nat)
    requires IsScanGeom(im.frame, sg) && ci < |sg.comps| && m < sg.mcusPerRow && x < sg.comps[ci].mcuWidth
    ensures var sc, c := sg.comps[ci], im.frame.comps[sg.comps[ci].index];
            var blockcnt := if m < sg.mcusPerRow - 1 then sc.mcuWidth else sc.lastColWidth;
            && (m * sc.mcuWidth + x < c.widthInBlocks <==> x < blockcnt)
            && (x >= blockcnt ==> m * sc.mcuWidth + blockcnt == c.widthInBlocks)
  {
    CompFacts(im.frame, sg, ci);
    var sc := sg.comps[ci];
    if m < sg.mcusPerRow - 1 {
      MulMonotone(m + 1, sg.mcusPerRow - 1, sc.mcuWidth);
      MulAdd(m, 1, sc.mcuWidth);
    }
  }

  // ----- the blocks of an MCU

  /** Where the DCT of a block takes its samples: rows counted within the interleaved MCU row, columns from the
      MCU's first sample. */
  lemma SamplePosition(im: Image, sc: ScanComp, i: nat, row: nat, m: nat, b: nat)
    requires sc.index < |im.frame.comps| && im.frame.comps[sc.index].vSamp >= 0
    requires sc.mcuSampleWidth == sc.mcuWidth * im.frame.comps[sc.index].dctH
    ensures var c := im.frame.comps[sc.index];
            && i * c.vSamp * c.dctV + row * c.dctV == (i * c.vSamp + row) * c.dctV
            && m * sc.mcuSampleWidth + b * c.dctH == (m * sc.mcuWidth + b) * c.dctH
  {
    var c := im.frame.comps[sc.index];
    MulAdd(i * c.vSamp, row, c.dctV);
    MulAdd(m * sc.mcuWidth, b, c.dctH);
    MulAssociateLeft(m, sc.mcuWidth, c.dctH);
  }

  lemma PaddedRow(im: Image, c: nat, y: nat, x: nat)
    requires NotEmpty(im.frame, c)
    ensures var co := im.frame.comps[c];
            && (y < co.heightInBlocks && x < co.widthInBlocks ==> Padded(im, c, y, x) == Real(im, c, y, x))
            && (y < co.heightInBlocks && x >= co.widthInBlocks ==>
                  Padded(im, c, y, x) == Dummy(Padded(im, c, y, co.widthInBlocks - 1)[0]))
            && (y >= co.heightInBlocks ==>
                y > 0 && Padded(im, c, y, x) == Dummy(Padded(im, c, y - 1, LastInGroup(x, co.hSamp))[0]))
  {
  }

  lemma DummyDc(dc: JCOEF)
    ensures Dummy(dc)[0] == dc && ZeroBlock()[0 := dc] == Dummy(dc)
  {
  }

  lemma GroupOf(m: nat, h: nat, x: nat)
    requires x < h
    ensures LastInGroup(m * h + x, h) == m * h + (h - 1)
  {
    DivModUnique(m * h + x, h, m, x);
  }

  lemma {:induction false} StripAt(im: Image, sc: ScanComp, r: nat, m: nat, yindex: nat, n: nat, x: nat)
    requires NotEmpty(im.frame, sc.index) && x < n
    ensures Strip(im, sc, r, m, yindex, n)[x] == Padded(im, sc.index, r * sc.mcuHeight + yindex, m * sc.mcuWidth + x)
  {
    if x < n - 1 {
      StripAt(im, sc, r, m, yindex, n - 1, x);
    }
  }

  lemma {:induction false} McuFits(comps: seq<ScanComp>, ci: nat, yindex: nat)
    requires ci < |comps| && yindex < comps[ci].mcuHeight
    ensures McuBlocks(comps, ci) + (yindex + 1) * comps[ci].mcuWidth <= McuBlocks(comps, |comps|)
    ensures (yindex + 1) * comps[ci].mcuWidth == yindex * comps[ci].mcuWidth + comps[ci].mcuWidth
  {
    MulMonotone(yindex + 1, comps[ci].mcuHeight, comps[ci].mcuWidth);
    MulSwap(comps[ci].mcuWidth, comps[ci].mcuHeight);
    MulAdd(yindex, 1, comps[ci].mcuWidth);
    McuBlocksMonotone(comps, ci + 1, |comps|);
  }
}
