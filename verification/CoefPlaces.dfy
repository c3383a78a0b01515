// Where the blocks of an MCU stand in the decoder's coefficient arrays.
module CoefPlaces {
  import opened Coefs
  import opened Powers
  import opened Segments
  import opened Geometry
  import opened McuLayout
  import opened BufferedController

  /** A block of a component: its row and column in the component's array. */
  datatype Place = Place(comp: nat, row: nat, col: nat)

  predicate InArrays(arrays: seq<array2<Block>>, p: Place) {
    p.comp < |arrays| && p.row < arrays[p.comp].Length0 && p.col < arrays[p.comp].Length1
  }

  function Look(arrays: seq<array2<Block>>, p: Place): Block
    requires InArrays(arrays, p)
    reads arrays
  {
    arrays[p.comp][p.row, p.col]
  }

  /** The places of n blocks of a row of blocks, within the MCU in row r and column m. */
  function StripPlaces(sc: ScanComp, r: nat, m: nat, yindex: nat, n: nat): (s: seq<Place>)
    ensures |s| == n
  {
    if n == 0 then []
    else StripPlaces(sc, r, m, yindex, n - 1)
         + [Place(sc.index, r * sc.mcuHeight + yindex, m * sc.mcuWidth + (n - 1))]
  }

  function StripsPlaces(sc: ScanComp, r: nat, m: nat, n: nat): (s: seq<Place>)
    ensures |s| == n * sc.mcuWidth
  {
    if n == 0 then []
    else
      MulAdd(n - 1, 1, sc.mcuWidth);
      StripsPlaces(sc, r, m, n - 1) + StripPlaces(sc, r, m, n - 1, sc.mcuWidth)
  }

  function CompPlaces(sg: ScanGeom, r: nat, m: nat, n: nat): (s: seq<Place>)
    requires n <= |sg.comps|
    ensures |s| == McuBlocks(sg.comps, n)
  {
    if n == 0 then []
    else
      MulSwap(sg.comps[n - 1].mcuWidth, sg.comps[n - 1].mcuHeight);
      CompPlaces(sg, r, m, n - 1) + StripsPlaces(sg.comps[n - 1], r, m, sg.comps[n - 1].mcuHeight)
  }

  /** The blocks of the MCU in row r and column m, in the order they are coded. */
  function McuPlaces(sg: ScanGeom, r: nat, m: nat): seq<Place> {
    CompPlaces(sg, r, m, |sg.comps|)
  }

  // ----- the MCU that an encoder sends holds the blocks of these places

  ghost predicate Shown(im: Image, places: seq<Place>, blocks: seq<Block>) {
    |places| == |blocks| && forall b :: 0 <= b < |places| ==>
        NotEmpty(im.frame, places[b].comp) && blocks[b] == Padded(im, places[b].comp, places[b].row, places[b].col)
  }

  lemma ShownJoined(im: Image, p: seq<Place>, b: seq<Block>, q: seq<Place>, c: seq<Block>)
    requires Shown(im, p, b) && Shown(im, q, c)
    ensures Shown(im, p + q, b + c)
  {
    hide Padded;
  }

  lemma {:induction false} StripShown(im: Image, sc: ScanComp, r: nat, m: nat, yindex: nat, n: nat)
    requires NotEmpty(im.frame, sc.index)
    ensures Shown(im, StripPlaces(sc, r, m, yindex, n), Strip(im, sc, r, m, yindex, n))
  {
    hide Padded;
    if n > 0 {
      StripShown(im, sc, r, m, yindex, n - 1);
    }
  }

  lemma {:induction false} StripsShown(im: Image, sc: ScanComp, r: nat, m: nat, n: nat)
    requires NotEmpty(im.frame, sc.index)
    ensures Shown(im, StripsPlaces(sc, r, m, n), Strips(im, sc, r, m, n))
  {
    hide Padded, Shown, Strip, StripPlaces;
    if n > 0 {
      StripsShown(im, sc, r, m, n - 1);
      StripShown(im, sc, r, m, n - 1, sc.mcuWidth);
      ShownJoined(im, StripsPlaces(sc, r, m, n - 1), Strips(im, sc, r, m, n - 1),
                  StripPlaces(sc, r, m, n - 1, sc.mcuWidth), Strip(im, sc, r, m, n - 1, sc.mcuWidth));
    } else {
      NothingShown(im);
    }
  }

  lemma NothingShown(im: Image)
    ensures Shown(im, [], [])
  {
  }

  lemma {:induction false} CompShown(im: Image, sg: ScanGeom, r: nat, m: nat, n: nat)
    requires InImage(im.frame, sg) && n <= |sg.comps|
    ensures Shown(im, CompPlaces(sg, r, m, n), CompBlocks(im, sg, r, m, n))
  {
    hide Padded, Shown, Strips, StripsPlaces;
    if n > 0 {
      var sc := sg.comps[n - 1];
      CompShown(im, sg, r, m, n - 1);
      StripsShown(im, sc, r, m, sc.mcuHeight);
      ShownJoined(im, CompPlaces(sg, r, m, n - 1), CompBlocks(im, sg, r, m, n - 1),
                  StripsPlaces(sc, r, m, sc.mcuHeight), Strips(im, sc, r, m, sc.mcuHeight));
    } else {
      NothingShown(im);
    }
  }

  /** The n-th MCU of a scan. */
  lemma {:induction false} RowsAt(im: Image, sg: ScanGeom, rows: nat, r: nat, m: nat)
    requires InImage(im.frame, sg) && r < rows && m < sg.mcusPerRow
    ensures |Rows(im, sg, rows)| == rows * sg.mcusPerRow && 0 <= r * sg.mcusPerRow + m < rows * sg.mcusPerRow
    ensures Rows(im, sg, rows)[r * sg.mcusPerRow + m] == McuAt(im, sg, r, m)
  {
    hide McuAt;
    RowsCount(im, sg, rows - 1);
    MulAdd(rows - 1, 1, sg.mcusPerRow);
    MulMonotone(0, r, sg.mcusPerRow);
    if r < rows - 1 {
      RowsAt(im, sg, rows - 1, r, m);
    } else {
      RowMcuAt(im, sg, r, sg.mcusPerRow, m);
    }
  }

  lemma {:induction false} RowsCount(im: Image, sg: ScanGeom, rows: nat)
    requires InImage(im.frame, sg)
    ensures |Rows(im, sg, rows)| == rows * sg.mcusPerRow
  {
    if rows > 0 {
      RowsCount(im, sg, rows - 1);
      MulAdd(rows - 1, 1, sg.mcusPerRow);
    }
  }

  lemma {:induction false} RowMcuAt(im: Image, sg: ScanGeom, r: nat, n: nat, m: nat)
    requires InImage(im.frame, sg) && m < n
    ensures RowMcus(im, sg, r, n)[m] == McuAt(im, sg, r, m)
  {
    hide McuAt;
    if m < n - 1 {
      RowMcuAt(im, sg, r, n - 1, m);
    }
  }

  // ----- each place belongs to one block of one MCU

  /** The scan's first component with this index, or the number of components. */
  function CompIn(comps: seq<ScanComp>, c: nat): (ci: nat)
    ensures ci <= |comps| && (ci < |comps| ==> comps[ci].index == c)
    ensures forall i :: 0 <= i < ci ==> comps[i].index != c
  {
    if comps == [] || comps[0].index == c then 0 else 1 + CompIn(comps[1..], c)
  }

  /** Every component has blocks in an MCU, and no component is in the scan twice. */
  ghost predicate Distinct(sg: ScanGeom) {
    && (forall i :: 0 <= i < |sg.comps| ==> sg.comps[i].mcuWidth > 0 && sg.comps[i].mcuHeight > 0)
    && (forall i, j :: 0 <= i < j < |sg.comps| ==> sg.comps[i].index != sg.comps[j].index)
  }

  lemma CompInIs(sg: ScanGeom, ci: nat)
    requires Distinct(sg) && ci < |sg.comps|
    ensures CompIn(sg.comps, sg.comps[ci].index) == ci
  {
  }

  /** The MCU's blocks of the first n components include the place. */
  predicate InMcu(sg: ScanGeom, r: nat, m: nat, n: nat, p: Place)
    requires n <= |sg.comps| && Distinct(sg)
  {
    var ci := CompIn(sg.comps, p.comp);
    ci < n && p.row / sg.comps[ci].mcuHeight == r && p.col / sg.comps[ci].mcuWidth == m
  }

  /** Which block of its MCU the place is. */
  function BlockNo(sg: ScanGeom, p: Place): nat
    requires Distinct(sg) && CompIn(sg.comps, p.comp) < |sg.comps|
  {
    var ci := CompIn(sg.comps, p.comp);
    var sc := sg.comps[ci];
    MulMonotone(0, p.row % sc.mcuHeight, sc.mcuWidth);
    McuBlocks(sg.comps, ci) + p.row % sc.mcuHeight * sc.mcuWidth + p.col % sc.mcuWidth
  }

  lemma {:induction false} StripPlaceAt(sc: ScanComp, r: nat, m: nat, yindex: nat, n: nat, x: nat)
    requires x < n
    ensures 0 <= r * sc.mcuHeight && 0 <= m * sc.mcuWidth
    ensures StripPlaces(sc, r, m, yindex, n)[x] == Place(sc.index, r * sc.mcuHeight + yindex, m * sc.mcuWidth + x)
  {
    MulMonotone(0, r, sc.mcuHeight);
    MulMonotone(0, m, sc.mcuWidth);
    if x < n - 1 {
      StripPlaceAt(sc, r, m, yindex, n - 1, x);
    }
  }

  lemma {:induction false} StripsPlaceAt(sc: ScanComp, r: nat, m: nat, n: nat, y: nat, x: nat)
    requires y < n && x < sc.mcuWidth
    ensures 0 <= y * sc.mcuWidth && y * sc.mcuWidth + x < n * sc.mcuWidth
    ensures 0 <= r * sc.mcuHeight && 0 <= m * sc.mcuWidth
    ensures StripsPlaces(sc, r, m, n)[y * sc.mcuWidth + x]
            == Place(sc.index, r * sc.mcuHeight + y, m * sc.mcuWidth + x)
  {
    MulMonotone(0, y, sc.mcuWidth);
    MulMonotone(y + 1, n, sc.mcuWidth);
    MulAdd(y, 1, sc.mcuWidth);
    MulAdd(n - 1, 1, sc.mcuWidth);
    if y < n - 1 {
      StripsPlaceAt(sc, r, m, n - 1, y, x);
    } else {
      StripPlaceAt(sc, r, m, y, sc.mcuWidth, x);
    }
  }

  /** A block of a component stands at the place with its number. */
  lemma {:induction false} CompPlaceAt(sg: ScanGeom, r: nat, m: nat, n: nat, ci: nat, y: nat, x: nat)
    requires Distinct(sg) && ci < n <= |sg.comps| && y < sg.comps[ci].mcuHeight && x < sg.comps[ci].mcuWidth
    ensures var sc := sg.comps[ci];
            && 0 <= r * sc.mcuHeight && 0 <= m * sc.mcuWidth && 0 <= y * sc.mcuWidth
            && McuBlocks(sg.comps, ci) + y * sc.mcuWidth + x < McuBlocks(sg.comps, n)
            && CompPlaces(sg, r, m, n)[McuBlocks(sg.comps, ci) + y * sc.mcuWidth + x]
               == Place(sc.index, r * sc.mcuHeight + y, m * sc.mcuWidth + x)
  {
    MulSwap(sg.comps[n - 1].mcuWidth, sg.comps[n - 1].mcuHeight);
    StripsPlaceAt(sg.comps[ci], r, m, sg.comps[ci].mcuHeight, y, x);
    if ci < n - 1 {
      CompPlaceAt(sg, r, m, n - 1, ci, y, x);
    }
  }

  lemma Recompose(x: nat, h: nat)
    requires h > 0
    ensures x == x / h * h + x % h
  {
  }

  /** The place of a block of the MCU has its number there. */
  lemma PlaceIs(sg: ScanGeom, r: nat, m: nat, p: Place)
    requires Distinct(sg) && InMcu(sg, r, m, |sg.comps|, p)
    ensures BlockNo(sg, p) < |McuPlaces(sg, r, m)| && McuPlaces(sg, r, m)[BlockNo(sg, p)] == p
  {
    hide CompPlaces, McuBlocks, CompIn;
    var ci := CompIn(sg.comps, p.comp);
    var y, x := p.row % sg.comps[ci].mcuHeight, p.col % sg.comps[ci].mcuWidth;
    Recompose(p.row, sg.comps[ci].mcuHeight);
    Recompose(p.col, sg.comps[ci].mcuWidth);
    CompPlaceAt(sg, r, m, |sg.comps|, ci, y, x);
  }

  lemma InMore(sg: ScanGeom, r: nat, m: nat, n: nat, p: Place)
    requires Distinct(sg) && 0 < n <= |sg.comps| && InMcu(sg, r, m, n - 1, p)
    ensures InMcu(sg, r, m, n, p)
  {
  }

  lemma NumberOf(sg: ScanGeom, r: nat, m: nat, ci: nat, y: nat, x: nat)
    requires Distinct(sg) && ci < |sg.comps| && y < sg.comps[ci].mcuHeight && x < sg.comps[ci].mcuWidth
    requires 0 <= r * sg.comps[ci].mcuHeight && 0 <= m * sg.comps[ci].mcuWidth
    ensures var sc := sg.comps[ci];
            var p := Place(sc.index, r * sc.mcuHeight + y, m * sc.mcuWidth + x);
            && CompIn(sg.comps, p.comp) == ci && InMcu(sg, r, m, ci + 1, p)
            && BlockNo(sg, p) == McuBlocks(sg.comps, ci) + y * sc.mcuWidth + x
  {
    var sc := sg.comps[ci];
    CompInIs(sg, ci);
    DivModUnique(r * sc.mcuHeight + y, sc.mcuHeight, r, y);
    DivModUnique(m * sc.mcuWidth + x, sc.mcuWidth, m, x);
  }

  lemma GroupsHold(x: nat, size: nat, groups: nat)
    requires size > 0
    ensures x / size < groups <==> x < groups * size
  {
    Recompose(x, size);
    CompareQuotient(x / size, x % size, size, groups);
  }

  lemma {:induction false} BlockIsIn(sg: ScanGeom, r: nat, m: nat, n: nat, b: nat)
    requires Distinct(sg) && n <= |sg.comps| && b < McuBlocks(sg.comps, n)
    ensures var p := CompPlaces(sg, r, m, n)[b];
            CompIn(sg.comps, p.comp) < |sg.comps| && InMcu(sg, r, m, n, p) && BlockNo(sg, p) == b
  {
    hide CompIn, StripsPlaces, InMcu, BlockNo;
    if b < McuBlocks(sg.comps, n - 1) {
      BlockIsIn(sg, r, m, n - 1, b);
      InMore(sg, r, m, n, CompPlaces(sg, r, m, n - 1)[b]);
    } else {
      var sc := sg.comps[n - 1];
      MulSwap(sc.mcuWidth, sc.mcuHeight);
      var k := b - McuBlocks(sg.comps, n - 1);
      var y, x := k / sc.mcuWidth, k % sc.mcuWidth;
      Recompose(k, sc.mcuWidth);
      GroupsHold(k, sc.mcuWidth, sc.mcuHeight);
      CompPlaceAt(sg, r, m, n, n - 1, y, x);
      NumberOf(sg, r, m, n - 1, y, x);
    }
  }

  // ----- the arrays have room

  lemma HasRoom(im: Image, arrays: seq<array2<Block>>, sg: ScanGeom, r: nat, m: nat, p: Place)
    requires AreArrays(im, arrays) && IsScanGeom(im.frame, sg) && Distinct(sg) && r < sg.mcuRows && m < sg.mcusPerRow
    requires InMcu(sg, r, m, |sg.comps|, p)
    ensures InArrays(arrays, p)
  {
    hide IsFrame, RoundUp, CompIn;
    var ci := CompIn(sg.comps, p.comp);
    var sc := sg.comps[ci];
    CompFacts(im.frame, sg, ci);
    RoomForMcus(im, sg, ci);
    GroupsHold(p.row, sc.mcuHeight, sg.mcuRows);
    GroupsHold(p.col, sc.mcuWidth, sg.mcusPerRow);
    if !Interleaved(sg) {
      RowsFit(im, arrays, sc);
    }
  }

  lemma RowsFit(im: Image, arrays: seq<array2<Block>>, sc: ScanComp)
    requires AreArrays(im, arrays) && sc.index < |im.frame.comps|
    requires 0 < sc.lastRowHeight <= im.frame.comps[sc.index].vSamp && im.frame.totalIMcuRows > 0
    requires im.frame.comps[sc.index].heightInBlocks
             == (im.frame.totalIMcuRows - 1) * im.frame.comps[sc.index].vSamp + sc.lastRowHeight
    ensures im.frame.comps[sc.index].heightInBlocks <= arrays[sc.index].Length0
  {
    hide IsFrame, RoundUp;
    MulAdd(im.frame.totalIMcuRows, -1, im.frame.comps[sc.index].vSamp);
  }

  /** A real block of a component in the scan is in one of its MCUs; a scan of one component has no other blocks. */
  predicate IsReal(f: Frame, p: Place) {
    p.comp < |f.comps| && p.row < f.comps[p.comp].heightInBlocks && p.col < f.comps[p.comp].widthInBlocks
  }

  lemma RealIsIn(im: Image, sg: ScanGeom, p: Place)
    requires IsScanGeom(im.frame, sg) && Distinct(sg) && IsReal(im.frame, p) && CompIn(sg.comps, p.comp) < |sg.comps|
    ensures var sc := sg.comps[CompIn(sg.comps, p.comp)];
            p.row / sc.mcuHeight < sg.mcuRows && p.col / sc.mcuWidth < sg.mcusPerRow
  {
    hide IsFrame, CompIn;
    var ci := CompIn(sg.comps, p.comp);
    var sc, c := sg.comps[ci], im.frame.comps[p.comp];
    CompFacts(im.frame, sg, ci);
    MulAdd(sg.mcusPerRow, -1, sc.mcuWidth);
    MulAdd(im.frame.totalIMcuRows, -1, c.vSamp);
    GroupsHold(p.row, sc.mcuHeight, sg.mcuRows);
    GroupsHold(p.col, sc.mcuWidth, sg.mcusPerRow);
  }

  lemma OnlyReal(im: Image, sg: ScanGeom, r: nat, m: nat, p: Place)
    requires IsScanGeom(im.frame, sg) && Distinct(sg) && |sg.comps| == 1 && r < sg.mcuRows && m < sg.mcusPerRow
    requires InMcu(sg, r, m, 1, p)
    ensures IsReal(im.frame, p)
  {
    hide IsFrame;
    CompFacts(im.frame, sg, 0);
  }
}
