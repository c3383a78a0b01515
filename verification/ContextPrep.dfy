// The compressor's preprocessing with context rows: a ring of three row groups, seen through pointers to five.
module ContextPrep {
  import opened Powers
  import opened RowLists

  class PrepController {
    const r: nat
    const imageHeight: nat
    // Three row groups, a sample row standing for its number in the image, and pointers to five.
    const rows: array<int>
    const fake: array<nat>
    var rowsToGo: nat
    var nextBufRow: nat
    var thisRowGroup: nat
    var nextBufStop: nat
    // What the downsampler was given for each row group: its rows, and those around it.
    var log: seq<seq<int>>

    ghost predicate Shape() {
      && 0 < r && 0 < imageHeight && rows.Length == 3 * r && fake.Length == 5 * r
    }

    /** The row in the ring for offset i of color_buf, from a row group before it to one after it. */
    function Norm(i: int): int {
      if i < 0 then i + 3 * r else if i >= 3 * r then i - 3 * r else i
    }

    ghost predicate Wrapped()
      requires Shape()
      reads fake
    {
      forall i :: 0 <= i < 5 * r ==> fake[i] == Norm(i - r)
    }

    /** color_buf[i]. */
    function ColorBuf(i: int): int
      requires Shape() && Wrapped() && 0 <= i + r < 5 * r
      reads rows, fake
    {
      rows[fake[i + r]]
    }

    /** How many rows past the start of the row group to process are in the ring. */
    ghost function Filled(): int
      reads this
    {
      nextBufRow - nextBufStop + 2 * r
    }

    /** The ring holds the rows around the row group to process, as far as they came; when the image is all in,
        its last row again. */
    ghost predicate Holds(n: nat)
      requires Shape() && Wrapped()
      reads this, rows, fake
    {
      forall i :: 0 <= i + r < 5 * r && thisRowGroup - r <= i < thisRowGroup + Filled() ==>
        (ColorBuf(i) == Clamp(n * r + (i - thisRowGroup), imageHeight))
    }

    /** While the rows for row group n are gathered. */
    ghost predicate Gathering(n: nat)
      reads this, rows, fake
    {
      && Shape() && Wrapped() && rowsToGo <= imageHeight
      && (thisRowGroup == 0 || thisRowGroup == r || thisRowGroup == 2 * r)
      && nextBufStop == (if thisRowGroup == 2 * r then r else thisRowGroup + 2 * r)
      && 0 <= Filled() <= 2 * r
      && (if rowsToGo == imageHeight then n == 0 && Filled() == 0 && thisRowGroup == 0
          else Holds(n) && (n > 0 ==> Filled() >= r) && (n == 0 ==> thisRowGroup == 0 && Filled() > 0))
      && (if rowsToGo > 0 then n * r + Filled() == imageHeight - rowsToGo else n * r + Filled() >= imageHeight)
    }

    ghost predicate LogOk()
      reads this
    {
      forall n :: 0 <= n < |log| ==> log[n] == Shown(r, imageHeight, n, false)
    }

    ghost predicate Valid()
      reads this, rows, fake
    {
      Gathering(|log|) && Filled() < 2 * r && LogOk()
    }

    /** create_context_buffer and start_pass_prep. */
    constructor (maxVSampFactor: nat, height: nat)
      requires 0 < maxVSampFactor && 0 < height
      ensures r == maxVSampFactor && imageHeight == height && Valid() && log == [] && rowsToGo == height
      ensures fresh(rows) && fresh(fake)
    {
      r := maxVSampFactor;
      imageHeight := height;
      rows := new int[3 * maxVSampFactor](_ => 0);
      fake := new nat[5 * maxVSampFactor](_ => 0);
      rowsToGo := height;
      nextBufRow := 0;
      thisRowGroup := 0;
      nextBufStop := 2 * maxVSampFactor;
      log := [];
      new;
      CreateContextBuffer();
    }

    /** The pointers above and below wrap around. */
    method CreateContextBuffer()
      requires Shape()
      modifies fake
      ensures Wrapped()
    {
      for i := 0 to 3 * r
        invariant forall k :: r <= k < r + i ==> fake[k] == k - r
      {
        fake[r + i] := i;
      }
      for i := 0 to r
        invariant forall k :: 0 <= k < i || r <= k < 4 * r + i ==> fake[k] == Norm(k - r)
      {
        fake[i] := 2 * r + i;
        fake[4 * r + i] := i;
      }
    }

    /** Stores rows of the image, from row first on, at color_buf[at..at + num]. */
    method ColorConvert(first: int, at: nat, num: nat)
      requires Shape() && Wrapped() && at + num <= 3 * r
      modifies rows
      ensures forall k :: 0 <= k < rows.Length ==>
              rows[k] == if at <= k < at + num then first + (k - at) else old(rows[k])
    {
      for i := 0 to num
        invariant forall k :: 0 <= k < rows.Length ==>
                  rows[k] == if at <= k < at + i then first + (k - at) else old(rows[k])
      {
        rows[fake[at + i + r]] := first + i;
      }
    }

    /** expand_bottom_edge. */
    method ExpandBottomEdge(inputRows: nat, outputRows: nat)
      requires Shape() && Wrapped() && inputRows <= outputRows <= 3 * r
      modifies rows
      ensures forall k :: 0 <= k < rows.Length ==>
                rows[k] == if inputRows <= k < outputRows then old(ColorBuf(inputRows - 1)) else old(rows[k])
    {
      for row := inputRows to outputRows
        invariant forall k :: 0 <= k < rows.Length ==>
                    rows[k] == if inputRows <= k < row then old(ColorBuf(inputRows - 1)) else old(rows[k])
      {
        rows[fake[row + r]] := rows[fake[inputRows - 1 + r]];
      }
    }

    /** Copies of the first row above the image. */
    method PadTop()
      requires Shape() && Wrapped()
      modifies rows
      ensures forall k :: 0 <= k < rows.Length ==> rows[k] == if k >= 2 * r then old(rows[0]) else old(rows[k])
    {
      for row := 1 to r + 1
        invariant forall k :: 0 <= k < rows.Length ==> rows[k] == if k > 3 * r - row then old(rows[0]) else old(rows[k])
      {
        rows[fake[r - row]] := rows[fake[r]];
      }
    }

    /** Takes num rows of the image. */
    method TakeRows(ghost n: nat, num: nat)
      requires Gathering(n) && 0 < num <= rowsToGo && num <= nextBufStop - nextBufRow
      modifies `nextBufRow, `rowsToGo, rows
      ensures Gathering(n) && Filled() == old(Filled()) + num && rowsToGo == old(rowsToGo) - num
    {
      ghost var filled := Filled();
      ColorConvert(imageHeight - rowsToGo, nextBufRow, num);
      if rowsToGo == imageHeight {
        PadTop();
      }
      nextBufRow := nextBufRow + num;
      rowsToGo := rowsToGo - num;
      assert Holds(n) by {
        forall i | 0 <= i + r < 5 * r && thisRowGroup - r <= i < thisRowGroup + Filled()
          ensures ColorBuf(i) == Clamp(n * r + (i - thisRowGroup), imageHeight)
        {
          assert ColorBuf(i) == rows[Norm(i)];
          if old(rowsToGo) == imageHeight {
            assert n * r == 0;
            assert rows[0] == 0;
          } else if i < thisRowGroup + filled {
            assert old(ColorBuf(i)) == old(rows[Norm(i)]) == rows[Norm(i)];
          } else {
            assert Norm(i) == old(nextBufRow) + (i - thisRowGroup - filled);
          }
        }
      }
    }

    /** At the bottom of the image, copies of its last row. */
    method PadBottom(ghost n: nat)
      requires Gathering(n) && rowsToGo == 0 && nextBufRow < nextBufStop
      modifies `nextBufRow, rows
      ensures Gathering(n) && Filled() == 2 * r
    {
      ghost var filled := Filled();
      ExpandBottomEdge(nextBufRow, nextBufStop);
      nextBufRow := nextBufStop;
      assert Holds(n) by {
        assert old(ColorBuf(thisRowGroup + filled - 1)) == imageHeight - 1;
        assert old(ColorBuf(nextBufRow - 1)) == imageHeight - 1;
        forall i | 0 <= i + r < 5 * r && thisRowGroup - r <= i < thisRowGroup + Filled()
          ensures ColorBuf(i) == Clamp(n * r + (i - thisRowGroup), imageHeight)
        {
          assert ColorBuf(i) == rows[Norm(i)];
          if i < thisRowGroup + filled {
            assert old(ColorBuf(i)) == old(rows[Norm(i)]) == rows[Norm(i)];
          } else {
            assert Norm(i) == old(nextBufRow) + (i - thisRowGroup - filled);
          }
        }
      }
    }

    /** Downsamples a row group and moves on to the next. */
    method DownsampleGroup()
      requires Gathering(|log|) && LogOk() && nextBufRow == nextBufStop
      modifies `log, `thisRowGroup, `nextBufRow, `nextBufStop
      ensures Valid() && |log| == |old(log)| + 1
    {
      ghost var n := |log|;
      var view := Downsample();
      log := log + [view];
      Advance(n);
    }

    /** The rows downsample is given: those of the row group and those around it. */
    method Downsample() returns (view: seq<int>)
      requires Gathering(|log|) && Filled() == 2 * r && rowsToGo < imageHeight
      ensures view == Shown(r, imageHeight, |log|, false)
    {
      view := [];
      for t := 0 to 3 * r
        invariant |view| == t && forall k :: 0 <= k < t ==> view[k] == ColorBuf(thisRowGroup - r + k)
      {
        view := view + [rows[fake[thisRowGroup + t]]];
      }
      ghost var shown := Shown(r, imageHeight, |log|, false);
      forall t | 0 <= t < 3 * r
        ensures view[t] == shown[t]
      {
        var i := thisRowGroup - r + t;
        assert ColorBuf(i) == Clamp(|log| * r + (i - thisRowGroup), imageHeight);
      }
    }

    method Advance(ghost n: nat)
      requires Gathering(n) && Filled() == 2 * r && rowsToGo < imageHeight
      modifies `thisRowGroup, `nextBufRow, `nextBufStop
      ensures Gathering(n + 1) && Filled() == r
    {
      ghost var before := thisRowGroup;
      thisRowGroup := thisRowGroup + r;
      if thisRowGroup >= 3 * r {
        thisRowGroup := 0;
      }
      if nextBufRow >= 3 * r {
        nextBufRow := 0;
      }
      nextBufStop := nextBufRow + r;
      MulAdd(n, 1, r);
      forall i | 0 <= i + r < 5 * r && thisRowGroup - r <= i < thisRowGroup + r
        ensures ColorBuf(i) == Clamp((n + 1) * r + (i - thisRowGroup), imageHeight)
      {
        var j := i - thisRowGroup + before + r;
        assert Norm(i) == Norm(j);
        assert ColorBuf(i) == ColorBuf(j);
        assert old(ColorBuf(j)) == Clamp(n * r + (j - before), imageHeight);
      }
    }

    /** pre_process_context: goes on until the output buffer is full, or more rows are needed. */
    method PreProcessContext(inRowCtr: nat, inRowsAvail: nat, outCtr: nat, outAvail: nat) returns (inCtr: nat,
                             groups: nat)
      requires Valid() && outCtr <= outAvail && (inRowCtr < inRowsAvail ==> inRowsAvail - inRowCtr <= rowsToGo)
      modifies this, rows
      ensures Valid() && inRowCtr <= inCtr && rowsToGo == old(rowsToGo) - (inCtr - inRowCtr)
      ensures inCtr <= inRowsAvail || inCtr == inRowCtr
      ensures outCtr <= groups <= outAvail && |log| == |old(log)| + (groups - outCtr)
      ensures groups < outAvail ==> inCtr >= inRowsAvail && rowsToGo > 0
      ensures old(rowsToGo) > 0 && groups > outCtr ==> inCtr > inRowCtr
    {
      hide PrepController.Holds, PrepController.Wrapped, PrepController.Shape;
      inCtr, groups := inRowCtr, outCtr;
      while groups < outAvail
        invariant Valid() && inRowCtr <= inCtr && rowsToGo == old(rowsToGo) - (inCtr - inRowCtr)
        invariant inCtr <= inRowsAvail || inCtr == inRowCtr
        invariant inCtr < inRowsAvail ==> inRowsAvail - inCtr <= rowsToGo
        invariant outCtr <= groups <= outAvail && |log| == |old(log)| + (groups - outCtr)
        invariant old(rowsToGo) > 0 && groups > outCtr ==> inCtr > inRowCtr
        decreases outAvail - groups, inRowsAvail - inCtr
      {
        ghost var n := |log|;
        if inCtr < inRowsAvail {
          var inrows := inRowsAvail - inCtr;
          var numrows := nextBufStop - nextBufRow;
          if inrows < numrows {
            numrows := inrows;
          }
          TakeRows(n, numrows);
          inCtr := inCtr + numrows;
        } else {
          if rowsToGo != 0 {
            break;
          }
          if nextBufRow < nextBufStop {
            PadBottom(n);
          }
        }
        if nextBufRow == nextBufStop {
          DownsampleGroup();
          groups := groups + 1;
        }
      }
    }
  }

  /** The main controller and, below it, the coefficient controller that may refuse an iMCU row for now. */
  class MainController {
    const prep: PrepController
    const m: nat
    const totalIMcuRows: nat
    var curIMcuRow: nat
    var rowgroupCtr: nat
    var suspended: bool
    var willing: seq<bool>

    /** The row groups downsampled are those of the iMCU rows compressed and of the one being filled. */
    ghost predicate Valid()
      reads this, prep, prep.rows, prep.fake
    {
      && prep.Valid() && 0 < m && prep.imageHeight <= totalIMcuRows * m * prep.r
      && curIMcuRow <= totalIMcuRows && |prep.log| == curIMcuRow * m + rowgroupCtr
      && (if curIMcuRow == totalIMcuRows then rowgroupCtr == 0 && !suspended && prep.rowsToGo == 0
          else if suspended then rowgroupCtr == m && prep.rowsToGo < prep.imageHeight
          else rowgroupCtr < m && prep.rowsToGo > 0)
    }

    constructor (prep: PrepController, m: nat, totalIMcuRows: nat, willing: seq<bool>)
      requires prep.Valid() && prep.log == [] && prep.rowsToGo == prep.imageHeight
      requires 0 < m && 0 < totalIMcuRows && prep.imageHeight <= totalIMcuRows * m * prep.r
      ensures Valid() && this.prep == prep && this.m == m && this.totalIMcuRows == totalIMcuRows
      ensures this.willing == willing && !suspended && Taken() == 0
    {
      this.prep := prep;
      this.m := m;
      this.totalIMcuRows := totalIMcuRows;
      this.willing := willing;
      curIMcuRow := 0;
      rowgroupCtr := 0;
      suspended := false;
    }

    method CompressData() returns (ok: bool)
      modifies `willing
      ensures willing == if old(willing) == [] then [] else old(willing)[1..]
      ensures ok <==> old(willing) == [] || old(willing)[0]
    {
      ok := |willing| == 0 || willing[0];
      if |willing| > 0 {
        willing := willing[1..];
      }
    }

    /** Rows taken from the application, the one that is held back not counted. */
    ghost function Taken(): int
      reads this, prep
    {
      prep.imageHeight - prep.rowsToGo - (if suspended then 1 else 0)
    }

    /** Between iMCU rows, inRowCtr rows into the call. */
    ghost predicate InCall(inRowCtr: int)
      reads this, prep, prep.rows, prep.fake
    {
      && prep.Valid() && 0 < m && prep.imageHeight <= totalIMcuRows * m * prep.r
      && curIMcuRow <= totalIMcuRows && |prep.log| == curIMcuRow * m + rowgroupCtr && inRowCtr >= 0
      && (if curIMcuRow == totalIMcuRows then rowgroupCtr == 0 && !suspended && prep.rowsToGo == 0
          else if suspended then rowgroupCtr == m && prep.rowsToGo < prep.imageHeight && inRowCtr == 0
          else rowgroupCtr < m && (inRowCtr > 0 || prep.rowsToGo > 0))
    }

    /** process_data_simple_main: after a refusal the last row is said not to have been consumed. */
    method ProcessData(inRowsAvail: nat) returns (inRowCtr: int)
      requires Valid() && Taken() + inRowsAvail <= prep.imageHeight
      modifies this, prep, prep.rows
      ensures Valid() && inRowCtr >= 0 && Taken() == old(Taken()) + inRowCtr
      ensures |willing| <= |old(willing)|
      ensures inRowCtr > 0 || |willing| < |old(willing)| || inRowsAvail == 0 || curIMcuRow == totalIMcuRows
    {
      hide PrepController.Valid, MainController.InCall;
      inRowCtr := 0;
      Entering();
      while curIMcuRow < totalIMcuRows
        invariant InCall(inRowCtr) && Taken() == old(Taken()) + inRowCtr && |willing| <= |old(willing)|
        decreases totalIMcuRows - curIMcuRow
      {
        var full;
        full, inRowCtr := GatherIMcuRow(inRowCtr, inRowsAvail);
        if !full {
          return;
        }
        var ok;
        ok, inRowCtr := SendIMcuRow(inRowCtr);
        if !ok {
          return;
        }
      }
      Leaving(inRowCtr);
    }

    lemma Entering()
      requires Valid()
      ensures InCall(0)
    {
      hide PrepController.Valid;
    }

    lemma Leaving(inRowCtr: int)
      requires InCall(inRowCtr) && curIMcuRow >= totalIMcuRows
      ensures Valid() && inRowCtr >= 0
    {
      hide PrepController.Valid;
    }

    /** Has the preprocessor fill the iMCU row, unless it is already full. */
    method GatherIMcuRow(inRowCtr: int, inRowsAvail: nat) returns (full: bool, ctr: int)
      requires InCall(inRowCtr) && curIMcuRow < totalIMcuRows
      requires Taken() - inRowCtr + inRowsAvail <= prep.imageHeight
      modifies `rowgroupCtr, prep, prep.rows
      ensures ctr >= inRowCtr && Taken() == old(Taken()) + (ctr - inRowCtr) && (full <==> rowgroupCtr == m)
      ensures prep.Valid() && 0 < m && prep.imageHeight <= totalIMcuRows * m * prep.r && inRowCtr >= 0
      ensures |prep.log| == curIMcuRow * m + rowgroupCtr
      ensures if full then (if suspended then ctr == 0 else ctr > 0) && prep.rowsToGo < prep.imageHeight
              else Valid() && (inRowsAvail > 0 ==> ctr > 0)
    {
      hide PrepController.Gathering, PrepController.LogOk;
      ctr := inRowCtr;
      if rowgroupCtr < m {
        ctr, rowgroupCtr := prep.PreProcessContext(ctr, inRowsAvail, rowgroupCtr, m);
        NotAllToGo();
      }
      full := rowgroupCtr == m;
    }

    lemma NotAllToGo()
      requires prep.Valid()
      ensures |prep.log| > 0 ==> prep.rowsToGo < prep.imageHeight
    {
    }

    /** Sends a full iMCU row to the coefficient controller. */
    method SendIMcuRow(inRowCtr: int) returns (ok: bool, ctr: int)
      requires rowgroupCtr == m && curIMcuRow < totalIMcuRows && |prep.log| == curIMcuRow * m + rowgroupCtr
      requires prep.Valid() && 0 < m && prep.imageHeight <= totalIMcuRows * m * prep.r &&
               prep.rowsToGo < prep.imageHeight
      requires if suspended then inRowCtr == 0 else inRowCtr > 0
      modifies `rowgroupCtr, `curIMcuRow, `suspended, `willing
      ensures |willing| <= |old(willing)| && Taken() == old(Taken()) + (ctr - inRowCtr)
      ensures if ok then InCall(ctr) && ctr > 0 && curIMcuRow == old(curIMcuRow) + 1
              else Valid() && ctr >= 0 && |willing| < |old(willing)|
    {
      hide PrepController.Valid;
      ctr := inRowCtr;
      ok := CompressData();
      if !ok {
        if !suspended {
          ctr := ctr - 1;
          suspended := true;
        }
        return;
      }
      if suspended {
        ctr := ctr + 1;
        suspended := false;
      }
      MulAdd(curIMcuRow, 1, m);
      rowgroupCtr := 0;
      curIMcuRow := curIMcuRow + 1;
      if curIMcuRow == totalIMcuRows {
        AllIn();
      }
    }

    /** Once all row groups are done, all rows have been read. */
    lemma AllIn()
      requires prep.Valid() && |prep.log| == totalIMcuRows * m && prep.imageHeight <= totalIMcuRows * m * prep.r
      ensures prep.rowsToGo == 0
    {
    }
  }

  /** The application hands over all rows, in pieces: every row group of the image, extended at the bottom to
      whole iMCU rows, is downsampled once, in order, with the rows around it, and by the time the last row
      counts as written every iMCU row is compressed. */
  method WriteScanlines(height: nat, maxV: nat, m: nat, totalIMcuRows: nat, willing: seq<bool>, pieces: seq<nat>)
    returns (log: seq<seq<int>>)
    requires 0 < height <= totalIMcuRows * m * maxV && 0 < maxV && 0 < m
    ensures |log| == totalIMcuRows * m
    ensures forall n :: 0 <= n < |log| ==> log[n] == Shown(maxV, height, n, false)
  {
    hide PrepController.Valid, MainController.Valid, MainController.Taken;
    NoRows(totalIMcuRows, m, maxV);
    var prep := new PrepController(maxV, height);
    var main := new MainController(prep, m, totalIMcuRows, willing);
    var nextScanline: nat := 0;
    var waiting: seq<nat> := pieces;
    Standing(main);
    while nextScanline < height
      invariant fresh(main) && fresh(prep) && fresh(prep.rows) && main.prep == prep && main.Valid()
      invariant main.m == m && main.totalIMcuRows == totalIMcuRows && prep.r == maxV && prep.imageHeight == height
      invariant nextScanline == main.Taken() <= height
      decreases height - nextScanline, |main.willing|, |waiting|
    {
      var num: nat := height - nextScanline;
      if |waiting| > 0 {
        num := if waiting[0] < num then waiting[0] else num;
        waiting := waiting[1..];
      }
      Standing(main);
      var ctr := main.ProcessData(num);
      Standing(main);
      nextScanline := nextScanline + ctr;
    }
    Standing(main);
    log := prep.log;
  }

  lemma NoRows(total: nat, m: nat, r: nat)
    ensures total == 0 ==> total * m * r == 0
  {
  }

  lemma Standing(main: MainController)
    requires main.Valid()
    ensures 0 <= main.Taken() <= main.prep.imageHeight
    ensures main.prep.rowsToGo == main.prep.imageHeight && !main.suspended ==> main.Taken() == 0
    ensures main.Taken() == main.prep.imageHeight || main.curIMcuRow == main.totalIMcuRows ==>
              main.Taken() == main.prep.imageHeight && |main.prep.log| == main.totalIMcuRows * main.m
    ensures forall n :: 0 <= n < |main.prep.log| ==>
            main.prep.log[n] == Shown(main.prep.r, main.prep.imageHeight, n, false)
  {
  }
}
