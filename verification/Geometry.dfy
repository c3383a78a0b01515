// Sizes of a frame and of a scan, in blocks and MCUs.
module Geometry {
  import opened Powers
  import opened Segments

  const MAX_COMPONENTS := 10
  const MAX_SAMP_FACTOR := 4
  const JPEG_MAX_DIMENSION := 65500
  const C_MAX_BLOCKS_IN_MCU := 10

  /** Quotient rounded up. */
  function DivRoundUp(a: nat, b: nat): nat
    requires b > 0
  {
    (a + b - 1) / b
  }

  lemma RoundsUp(a: nat, b: nat)
    requires b > 0 && a > 0
    ensures var q := DivRoundUp(a, b); q > 0 && (q - 1) * b < a <= q * b
  {
    var q, r := (a + b - 1) / b, (a + b - 1) % b;
    assert a + b - 1 == q * b + r;
    MulAdd(q, 1, b);
    QuotientAtLeast(a + b - 1, b, 1);
  }

  /** A quotient between two multiples. */
  lemma Between(q: nat, a: nat, n: nat, b: nat)
    requires b > 0 && (q - 1) * b < a <= q * b && a <= n * b
    ensures q <= n
  {
    if n < q {
      MulMonotone(n, q - 1, b);
    }
  }

  // What remains for the last of the groups of size h that cover n: n % h, or h when that is zero.
  function Last(n: nat, h: nat): (r: nat)
    requires h > 0
    ensures 0 < r <= h
  {
    if n % h == 0 then h else n % h
  }

  lemma LastIs(n: nat, h: nat, groups: nat)
    requires h > 0 && groups > 0 && (groups - 1) * h < n <= groups * h
    ensures n == (groups - 1) * h + Last(n, h)
  {
    var d: nat := n - (groups - 1) * h;
    assert groups * h == (groups - 1) * h + h;
    assert d <= h;
    assert n == (groups - 1) * h + d;
    DivModOf(n, h, groups - 1, d);
  }

  lemma DivModOf(n: nat, h: nat, q: nat, d: nat)
    requires h > 0 && n == q * h + d && 0 < d <= h
    ensures n % h == if d == h then 0 else d
  {
    if d == h {
      MulAdd(q, 1, h);
      DivModUnique(n, h, q + 1, 0);
    } else {
      DivModUnique(n, h, q, d);
    }
  }

  /** Nested ceilings: a side of n samples holds groups of s; a component with h for each s samples has them in
      the same number of groups, the last not empty. */
  lemma NestedCeilings(n: nat, h: nat, s: nat)
    requires n > 0 && h > 0 && s > 0
    ensures var blocks, groups := DivRoundUp(n * h, s), DivRoundUp(n, s);
            blocks > 0 && groups > 0 && (groups - 1) * h < blocks <= groups * h
  {
    MulMonotone(1, n, h);
    var blocks, groups := DivRoundUp(n * h, s), DivRoundUp(n, s);
    RoundsUp(n * h, s);
    RoundsUp(n, s);
    var lo, hi := groups - 1, groups;
    Rearrange(lo, s, n, h);
    assert n * h <= hi * h * s by {
      MulMonotone(n, hi * s, h);
      Swap(hi, s, h);
    }
    Between(blocks, n * h, hi * h, s);
    if blocks <= lo * h {
      MulMonotone(blocks, lo * h, s);
    }
  }

  /** Rounding up twice is rounding up once. */
  lemma RoundUpTwice(n: nat, h: nat, s: nat)
    requires n > 0 && h > 0 && s > 0
    ensures DivRoundUp(DivRoundUp(n * h, s), h) == DivRoundUp(n, s)
  {
    NestedCeilings(n, h, s);
    var blocks, groups := DivRoundUp(n * h, s), DivRoundUp(n, s);
    RoundsUp(blocks, h);
    var q := DivRoundUp(blocks, h);
    Between(q, blocks, groups, h);
    Between(groups, blocks, q, h);
  }

  lemma Swap(a: nat, s: nat, h: nat)
    ensures a * s * h == a * h * s
  {
    assert a * s * h == a * (s * h);
    assert a * h * s == a * (h * s);
  }

  lemma Rearrange(lo: nat, s: nat, n: nat, h: nat)
    requires lo * s < n && h > 0
    ensures lo * h * s < n * h
  {
    Swap(lo, s, h);
    assert (lo * s + 1) * h == lo * s * h + h;
    MulMonotone(lo * s + 1, n, h);
  }

  // ----- the frame

  /** A component: its sampling factors, its scaled DCT sizes and, once set up, its size in blocks. */
  datatype CompInfo = CompInfo(hSamp: int, vSamp: int, dctH: nat, dctV: nat, widthInBlocks: nat, heightInBlocks: nat)

  datatype Frame = Frame(width: nat, height: nat, blockSize: nat, maxH: nat, maxV: nat, comps: seq<CompInfo>,
                         totalIMcuRows: nat)

  datatype Result<T> = Ok(value: T) | BadDctSize | EmptyImage | ImageTooBig | ComponentCount | BadSampling | BadMcuSize

  predicate SamplingOk(comps: seq<CompInfo>) {
    forall c :: 0 <= c < |comps| ==> 0 < comps[c].hSamp <= MAX_SAMP_FACTOR && 0 < comps[c].vSamp <= MAX_SAMP_FACTOR
  }

  /** groups of size samp cover a side of the component, the last not empty. */
  predicate Covering(blocks: nat, samp: nat, groups: nat) {
    blocks > 0 && groups > 0 && (groups - 1) * samp < blocks <= groups * samp
  }

  /** Every component's blocks fill the interleaved MCUs of the frame, all but the last column and row of MCUs
      completely. */
  ghost predicate IsFrame(f: Frame) {
    && f.width > 0 && f.height > 0 && 0 < f.blockSize && f.maxH > 0 && f.maxV > 0 && 0 < |f.comps| <= MAX_COMPONENTS
    && f.maxH * f.blockSize > 0 && f.maxV * f.blockSize > 0
    && SamplingOk(f.comps) && f.totalIMcuRows == DivRoundUp(f.height, f.maxV * f.blockSize)
    && forall c :: 0 <= c < |f.comps| ==> IsComp(f, f.comps[c])
  }

  ghost predicate IsComp(f: Frame, c: CompInfo)
    requires f.maxH * f.blockSize > 0 && f.maxV * f.blockSize > 0
  {
    && 0 < c.hSamp <= f.maxH && 0 < c.vSamp <= f.maxV
    && Covering(c.widthInBlocks, c.hSamp, DivRoundUp(f.width, f.maxH * f.blockSize))
    && Covering(c.heightInBlocks, c.vSamp, DivRoundUp(f.height, f.maxV * f.blockSize))
  }

  /** initial_setup: the maximum sampling factors and the size in blocks of every component. */
  method InitialSetup(width: nat, height: nat, blockSize: int, comps: seq<CompInfo>) returns (r: Result<Frame>)
    ensures r.Ok? <==> (1 <= blockSize <= 16 && 0 < width <= JPEG_MAX_DIMENSION && 0 < height <= JPEG_MAX_DIMENSION
                        && 0 < |comps| <= MAX_COMPONENTS && SamplingOk(comps))
    ensures r.Ok? ==> (IsFrame(r.value) && r.value.width == width && r.value.height == height
                       && r.value.blockSize == blockSize && |r.value.comps| == |comps|)
    ensures r.Ok? ==> (forall c :: 0 <= c < |comps| ==>
              r.value.comps[c].hSamp == comps[c].hSamp && r.value.comps[c].vSamp == comps[c].vSamp
              && r.value.comps[c].dctH == comps[c].dctH && r.value.comps[c].dctV == comps[c].dctV)
    ensures r.Ok? ==> ((exists c :: 0 <= c < |comps| && r.value.maxH == comps[c].hSamp)
                       && (exists c :: 0 <= c < |comps| && r.value.maxV == comps[c].vSamp))
  {
    if blockSize < 1 || blockSize > 16 {
      return BadDctSize;
    }
    if height <= 0 || width <= 0 || |comps| <= 0 {
      return EmptyImage;
    }
    if height > JPEG_MAX_DIMENSION || width > JPEG_MAX_DIMENSION {
      return ImageTooBig;
    }
    if |comps| > MAX_COMPONENTS {
      return ComponentCount;
    }
    var maxH: nat, maxV: nat := 1, 1;
    for ci := 0 to |comps|
      invariant SamplingOk(comps[..ci]) && 1 <= maxH && 1 <= maxV
      invariant forall c :: 0 <= c < ci ==> comps[c].hSamp <= maxH && comps[c].vSamp <= maxV
      invariant if ci == 0 then maxH == 1 else exists c :: 0 <= c < ci && maxH == comps[c].hSamp
      invariant if ci == 0 then maxV == 1 else exists c :: 0 <= c < ci && maxV == comps[c].vSamp
    {
      var c := comps[ci];
      if c.hSamp <= 0 || c.hSamp > MAX_SAMP_FACTOR || c.vSamp <= 0 || c.vSamp > MAX_SAMP_FACTOR {
        return BadSampling;
      }
      assert comps[..ci + 1] == comps[..ci] + [c];
      maxH := if c.hSamp > maxH then c.hSamp else maxH;
      maxV := if c.vSamp > maxV then c.vSamp else maxV;
    }
    assert comps[..|comps|] == comps;
    MulMonotone(1, maxH, blockSize);
    MulMonotone(1, maxV, blockSize);
    var f := Frame(width, height, blockSize, maxH, maxV, [], DivRoundUp(height, maxV * blockSize));
    var sized := SizeComponents(f, comps);
    f := f.(comps := sized);
    assert forall c :: 0 <= c < |sized| ==> IsComp(f, sized[c]);
    r := Ok(f);
  }

  /** The size in blocks of each component. */
  method SizeComponents(f: Frame, comps: seq<CompInfo>) returns (sized: seq<CompInfo>)
    requires f.width > 0 && f.height > 0 && f.maxH * f.blockSize > 0 && f.maxV * f.blockSize > 0
    requires forall c :: 0 <= c < |comps| ==> 0 < comps[c].hSamp <= f.maxH && 0 < comps[c].vSamp <= f.maxV
    ensures |sized| == |comps| && forall c :: 0 <= c < |comps| ==> IsComp(f, sized[c])
    ensures forall c :: 0 <= c < |comps| ==>
              && sized[c].hSamp == comps[c].hSamp && sized[c].vSamp == comps[c].vSamp
              && sized[c].dctH == comps[c].dctH && sized[c].dctV == comps[c].dctV
  {
    hide DivRoundUp;
    sized := [];
    for ci := 0 to |comps|
      invariant |sized| == ci && forall c :: 0 <= c < ci ==>
                  sized[c] == comps[c].(widthInBlocks := sized[c].widthInBlocks,
                      heightInBlocks := sized[c].heightInBlocks)
                  && IsComp(f, sized[c])
    {
      var c := comps[ci];
      NestedCeilings(f.width, c.hSamp, f.maxH * f.blockSize);
      NestedCeilings(f.height, c.vSamp, f.maxV * f.blockSize);
      sized := sized + [c.(widthInBlocks := DivRoundUp(f.width * c.hSamp, f.maxH * f.blockSize),
                           heightInBlocks := DivRoundUp(f.height * c.vSamp, f.maxV * f.blockSize))];
    }
  }

  // ----- a scan

  /** What per_scan_setup fills in for a component of the scan. */
  datatype ScanComp = ScanComp(index: nat, mcuWidth: nat, mcuHeight: nat, mcuSampleWidth: nat,
                               lastColWidth: nat, lastRowHeight: nat)

  datatype ScanGeom = ScanGeom(comps: seq<ScanComp>, mcusPerRow: nat, mcuRows: nat, membership: seq<nat>)

  predicate Interleaved(sg: ScanGeom) {
    |sg.comps| > 1
  }

  /** The MCU columns and rows cover the component: lastColWidth blocks in the last column, and lastRowHeight
      block rows in the last interleaved MCU row. */
  ghost predicate Fits(f: Frame, sg: ScanGeom, sc: ScanComp) {
    sc.index < |f.comps| && sg.mcusPerRow > 0 && f.totalIMcuRows > 0 &&
    var c := f.comps[sc.index];
    && 0 < sc.mcuWidth && 0 < sc.mcuHeight && sc.mcuSampleWidth == sc.mcuWidth * c.dctH
    && 0 < sc.lastColWidth <= sc.mcuWidth && c.widthInBlocks == (sg.mcusPerRow - 1) * sc.mcuWidth + sc.lastColWidth
    && 0 < sc.lastRowHeight <= c.vSamp && c.heightInBlocks == (f.totalIMcuRows - 1) * c.vSamp + sc.lastRowHeight
    && (if Interleaved(sg) then sc.mcuWidth == c.hSamp && sc.mcuHeight == c.vSamp && sg.mcuRows == f.totalIMcuRows
        else sc.mcuWidth == 1 && sc.mcuHeight == 1 && sg.mcuRows == c.heightInBlocks)
  }

  /** The number of blocks of the first n components in an MCU. */
  function McuBlocks(comps: seq<ScanComp>, n: nat): nat
    requires n <= |comps|
  {
    if n == 0 then 0 else McuBlocks(comps, n - 1) + comps[n - 1].mcuWidth * comps[n - 1].mcuHeight
  }

  function Times(v: nat, n: nat): seq<nat> {
    seq(n, _ => v)
  }

  /** The component of each block of an MCU. */
  function Members(comps: seq<ScanComp>, n: nat): (r: seq<nat>)
    requires n <= |comps|
    ensures |r| == McuBlocks(comps, n)
  {
    if n == 0 then [] else Members(comps, n - 1) + Times(n - 1, comps[n - 1].mcuWidth * comps[n - 1].mcuHeight)
  }

  ghost predicate IsScanGeom(f: Frame, sg: ScanGeom) {
    && IsFrame(f) && 0 < |sg.comps| <= MAX_COMPS_IN_SCAN
    && (forall ci :: 0 <= ci < |sg.comps| ==> Fits(f, sg, sg.comps[ci]))
    && McuBlocks(sg.comps, |sg.comps|) <= C_MAX_BLOCKS_IN_MCU
    && sg.membership == Members(sg.comps, |sg.comps|)
  }

  lemma McuBlocksGrow(comps: seq<ScanComp>, more: seq<ScanComp>, n: nat)
    requires n <= |comps| <= |more| && more[..|comps|] == comps
    ensures McuBlocks(comps, n) == McuBlocks(more, n)
  {
    if n > 0 {
      assert more[n - 1] == more[..|comps|][n - 1];
      McuBlocksGrow(comps, more, n - 1);
    }
  }

  lemma FitsCovering(f: Frame, c: nat)
    requires IsFrame(f) && c < |f.comps|
    ensures var co := f.comps[c];
            && co.widthInBlocks == (DivRoundUp(f.width,
                f.maxH * f.blockSize) - 1) * co.hSamp + Last(co.widthInBlocks, co.hSamp)
            && co.heightInBlocks == (f.totalIMcuRows - 1) * co.vSamp + Last(co.heightInBlocks, co.vSamp)
  {
    var co := f.comps[c];
    LastIs(co.widthInBlocks, co.hSamp, DivRoundUp(f.width, f.maxH * f.blockSize));
    LastIs(co.heightInBlocks, co.vSamp, DivRoundUp(f.height, f.maxV * f.blockSize));
  }

  /** per_scan_setup: a scan of one component has one block in each MCU, whatever the sampling factors; a scan
      of several has hSamp by vSamp blocks of each. */
  method PerScanSetup(f: Frame, comps: seq<nat>) returns (r: Result<ScanGeom>)
    requires IsFrame(f) && forall i :: 0 <= i < |comps| ==> comps[i] < |f.comps|
    ensures r.Ok? ==> IsScanGeom(f, r.value) && |r.value.comps| == |comps|
    ensures r.Ok? ==> (forall i :: 0 <= i < |comps| ==> r.value.comps[i].index == comps[i])
    ensures r.ComponentCount? <==> !(0 < |comps| <= MAX_COMPS_IN_SCAN)
    ensures r.BadMcuSize? <==> 1 < |comps| <= MAX_COMPS_IN_SCAN && BlocksOf(f, comps, |comps|) > C_MAX_BLOCKS_IN_MCU
    ensures r.Ok? || r.ComponentCount? || r.BadMcuSize?
  {
    hide IsFrame;
    if |comps| == 1 {
      var c := f.comps[comps[0]];
      FitsCovering(f, comps[0]);
      SamplingPositive(f, comps[0]);
      var tmp := c.heightInBlocks % c.vSamp;
      if tmp == 0 {
        tmp := c.vSamp;
      }
      var sc := ScanComp(comps[0], 1, 1, c.dctH, 1, tmp);
      var sg := ScanGeom([sc], c.widthInBlocks, c.heightInBlocks, [0]);
      assert McuBlocks([sc], 0) == 0 && McuBlocks([sc], 1) == 1;
      r := Ok(sg);
    } else {
      if |comps| <= 0 || |comps| > MAX_COMPS_IN_SCAN {
        return ComponentCount;
      }
      r := Interleave(f, comps);
    }
  }

  lemma SamplingPositive(f: Frame, c: nat)
    requires IsFrame(f) && c < |f.comps|
    ensures f.maxH * f.blockSize > 0 && f.maxV * f.blockSize > 0 && f.width > 0 && f.height > 0
    ensures 0 < f.comps[c].hSamp <= MAX_SAMP_FACTOR && 0 < f.comps[c].vSamp <= MAX_SAMP_FACTOR
    ensures f.totalIMcuRows == DivRoundUp(f.height, f.maxV * f.blockSize) > 0
    ensures DivRoundUp(f.width, f.maxH * f.blockSize) > 0 && f.comps[c].widthInBlocks > 0 &&
            f.comps[c].heightInBlocks > 0
  {
    assert IsComp(f, f.comps[c]);
  }

  /** The number of blocks an interleaved MCU of the first n components has. */
  ghost function BlocksOf(f: Frame, comps: seq<nat>, n: nat): nat
    requires IsFrame(f) && n <= |comps| && forall i :: 0 <= i < |comps| ==> comps[i] < |f.comps|
  {
    if n == 0 then 0
    else BlocksOf(f, comps, n - 1) + f.comps[comps[n - 1]].hSamp * f.comps[comps[n - 1]].vSamp
  }

  lemma {:induction false} BlocksOfGrows(f: Frame, comps: seq<nat>, m: nat, n: nat)
    requires IsFrame(f) && m <= n <= |comps| && forall i :: 0 <= i < |comps| ==> comps[i] < |f.comps|
    ensures BlocksOf(f, comps, m) <= BlocksOf(f, comps, n)
  {
    if m < n {
      BlocksOfGrows(f, comps, m, n - 1);
      MulMonotone(0, f.comps[comps[n - 1]].hSamp, f.comps[comps[n - 1]].vSamp);
    }
  }

  method Interleave(f: Frame, comps: seq<nat>) returns (r: Result<ScanGeom>)
    requires IsFrame(f) && 1 < |comps| <= MAX_COMPS_IN_SCAN && forall i :: 0 <= i < |comps| ==> comps[i] < |f.comps|
    ensures if BlocksOf(f, comps, |comps|) > C_MAX_BLOCKS_IN_MCU then r == BadMcuSize
            else r.Ok? && IsScanGeom(f, r.value) && |r.value.comps| == |comps|
                 && forall i :: 0 <= i < |comps| ==> r.value.comps[i].index == comps[i]
  {
    hide IsFrame, Fits, Members, FitsInterleaved, McuBlocks, BlocksOf, DivRoundUp;
    SamplingPositive(f, comps[0]);
    var mcusPerRow := DivRoundUp(f.width, f.maxH * f.blockSize);
    var mcuRows := DivRoundUp(f.height, f.maxV * f.blockSize);
    var scs: seq<ScanComp>, membership: seq<nat> := [], [];
    NoMembers(f, comps);
    for ci := 0 to |comps|
      invariant |scs| == ci && membership == Members(scs, ci)
      invariant McuBlocks(scs, ci) == BlocksOf(f, comps, ci) == |membership| <= C_MAX_BLOCKS_IN_MCU
      invariant forall i :: 0 <= i < ci ==> scs[i].index == comps[i] && FitsInterleaved(f, mcusPerRow, scs[i])
    {
      var sc := InterleavedComp(f, mcusPerRow, comps[ci]);
      var mcublks: nat := sc.mcuWidth * sc.mcuHeight;
      OneMoreComp(f, comps, scs, sc, ci);
      if |membership| + mcublks > C_MAX_BLOCKS_IN_MCU {
        BlocksOfGrows(f, comps, ci + 1, |comps|);
        return BadMcuSize;
      }
      ghost var before := membership;
      membership := AddMembers(membership, ci, mcublks);
      MoreMembers(scs, sc);
      scs := scs + [sc];
    }
    var sg := ScanGeom(scs, mcusPerRow, mcuRows, membership);
    forall ci | 0 <= ci < |scs|
      ensures Fits(f, sg, scs[ci])
    {
      InterleavedFits(f, sg, ci);
    }
    r := Ok(sg);
  }

  ghost predicate FitsInterleaved(f: Frame, mcusPerRow: nat, sc: ScanComp) {
    sc.index < |f.comps| && mcusPerRow > 0 && f.totalIMcuRows > 0 &&
    var c := f.comps[sc.index];
    && sc.mcuWidth == c.hSamp > 0 && sc.mcuHeight == c.vSamp > 0 && sc.mcuSampleWidth == sc.mcuWidth * c.dctH
    && 0 < sc.lastColWidth <= sc.mcuWidth && c.widthInBlocks == (mcusPerRow - 1) * sc.mcuWidth + sc.lastColWidth
    && 0 < sc.lastRowHeight <= c.vSamp && c.heightInBlocks == (f.totalIMcuRows - 1) * c.vSamp + sc.lastRowHeight
  }

  lemma InterleavedFits(f: Frame, sg: ScanGeom, ci: nat)
    requires Interleaved(sg) && sg.mcuRows == f.totalIMcuRows && ci < |sg.comps|
    requires FitsInterleaved(f, sg.mcusPerRow, sg.comps[ci])
    ensures Fits(f, sg, sg.comps[ci])
  {
  }

  lemma NoMembers(f: Frame, comps: seq<nat>)
    requires IsFrame(f) && forall i :: 0 <= i < |comps| ==> comps[i] < |f.comps|
    ensures Members([], 0) == [] && McuBlocks([], 0) == BlocksOf(f, comps, 0) == 0
  {
  }

  method InterleavedComp(f: Frame, mcusPerRow: nat, index: nat) returns (sc: ScanComp)
    requires IsFrame(f) && index < |f.comps| && f.maxH * f.blockSize > 0
    requires mcusPerRow == DivRoundUp(f.width, f.maxH * f.blockSize)
    ensures FitsInterleaved(f, mcusPerRow, sc) && sc.index == index
  {
    hide IsFrame;
    var c := f.comps[index];
    SamplingPositive(f, index);
    FitsCovering(f, index);
    var w := c.widthInBlocks % c.hSamp;
    if w == 0 {
      w := c.hSamp;
    }
    var h := c.heightInBlocks % c.vSamp;
    if h == 0 {
      h := c.vSamp;
    }
    sc := ScanComp(index, c.hSamp, c.vSamp, c.hSamp * c.dctH, w, h);
  }

  lemma OneMoreComp(f: Frame, comps: seq<nat>, scs: seq<ScanComp>, sc: ScanComp, ci: nat)
    requires IsFrame(f) && ci < |comps| && forall i :: 0 <= i < |comps| ==> comps[i] < |f.comps|
    requires |scs| == ci && McuBlocks(scs, ci) == BlocksOf(f, comps, ci)
    requires sc.index == comps[ci] && exists n: nat :: FitsInterleaved(f, n, sc)
    ensures McuBlocks(scs + [sc], ci + 1) == BlocksOf(f, comps, ci + 1) == BlocksOf(f, comps,
            ci) + sc.mcuWidth * sc.mcuHeight
  {
    McuBlocksGrow(scs, scs + [sc], ci);
  }

  method AddMembers(membership: seq<nat>, ci: nat, n: nat) returns (r: seq<nat>)
    ensures r == membership + Times(ci, n)
  {
    var mcublks: nat := n;
    r := membership;
    while mcublks > 0
      invariant mcublks <= n && r == membership + Times(ci, n - mcublks)
    {
      mcublks := mcublks - 1;
      r := r + [ci];
    }
  }

  lemma MoreMembers(scs: seq<ScanComp>, sc: ScanComp)
    ensures Members(scs + [sc], |scs| + 1) == Members(scs, |scs|) + Times(|scs|, sc.mcuWidth * sc.mcuHeight)
  {
    var more := scs + [sc];
    assert more[..|scs|] == scs && more[|scs|] == sc;
    MembersGrow(scs, more, |scs|);
  }

  lemma {:induction false} MembersGrow(comps: seq<ScanComp>, more: seq<ScanComp>, n: nat)
    requires n <= |comps| <= |more| && more[..|comps|] == comps
    ensures Members(comps, n) == Members(more, n)
  {
    if n > 0 {
      assert more[n - 1] == more[..|comps|][n - 1];
      MembersGrow(comps, more, n - 1);
    }
  }

  lemma {:induction false} McuBlocksMonotone(comps: seq<ScanComp>, m: nat, n: nat)
    requires m <= n <= |comps|
    ensures McuBlocks(comps, m) <= McuBlocks(comps, n)
  {
    if m < n {
      McuBlocksMonotone(comps, m, n - 1);
      MulMonotone(0, comps[n - 1].mcuWidth, comps[n - 1].mcuHeight);
    }
  }
}
