// The decompressor's main controller when upsampling needs context rows.
module ContextRows {
  import opened Powers
  import opened RowLists
  import opened Geometry

  datatype ContextState = PrepareForIMcu | ProcessIMcu | PostponedRow

  /** The coefficient controller and the postprocessor, as the main controller sees them: how many rows arrive
      before each suspension, and every row group taken, with the rows around it, for each component. */
  class Surroundings {
    var stalls: seq<nat>
    var log: seq<seq<seq<int>>>

    constructor (stalls: seq<nat>)
      ensures this.stalls == stalls && log == []
    {
      this.stalls := stalls;
      log := [];
    }
  }

  /** The row groups of a component of the given height. */
  function RowGroups(height: nat, rg: nat): nat
    requires rg > 0
  {
    DivRoundUp(height, rg)
  }

  /** Different components have different workspaces and lists. */
  ghost predicate Apart(a: RowLists, b: RowLists) {
    && a.list0 != b.list0 && a.list0 != b.list1 && a.list1 != b.list0 && a.list1 != b.list1 && a.rows != b.rows
  }

  class MainController {
    const m: nat
    const totalIMcuRows: nat
    const comps: seq<RowLists>
    const heights: seq<nat>
    const around: Surroundings
    var bufferFull: bool
    var rowgroupCtr: nat
    var whichptr: Which
    var contextState: ContextState
    var rowgroupsAvail: nat
    var iMcuRowCtr: nat

    /** The components: m row groups to an iMCU row, the last iMCU row not empty, equally many row groups. */
    ghost predicate Sizes() {
      2 <= m && 0 < totalIMcuRows && 0 < |comps| == |heights| && AllSized()
    }

    ghost predicate AllSized()
      requires |comps| == |heights|
    {
      && (forall c :: 0 <= c < |comps| ==> SizeOk(comps[c].rg, comps[c].span, heights[c]))
      && (forall c :: 0 <= c < |comps| ==> comps[c].rg > 0 && RowGroups(heights[c], comps[c].rg) == NumGroups())
    }

    ghost predicate SizeOk(rg: nat, span: nat, height: nat) {
      && 0 < rg && span == m * rg && 2 * rg <= span && 0 < totalIMcuRows
      && (totalIMcuRows - 1) * span < height <= totalIMcuRows * span
    }

    function NumGroups(): nat {
      if 0 < |comps| == |heights| && comps[0].rg > 0 then RowGroups(heights[0], comps[0].rg) else 0
    }

    ghost predicate Distinct() {
      forall c, d :: 0 <= c < d < |comps| ==> Apart(comps[c], comps[d])
    }

    ghost function Pointers(): set<array<nat>> {
      (set c | 0 <= c < |comps| :: comps[c].list0) + (set c | 0 <= c < |comps| :: comps[c].list1)
    }

    ghost function Workspace(): set<array<int>> {
      set c | 0 <= c < |comps| :: comps[c].rows
    }

    /** Allocated, and start_pass. */
    constructor (m: nat, totalIMcuRows: nat, comps: seq<RowLists>, heights: seq<nat>, around: Surroundings)
      requires 2 <= m && 0 < totalIMcuRows && 0 < |comps| == |heights| && around.log == []
      requires forall c :: 0 <= c < |comps| ==>
               comps[c].Safe() && comps[c].rg > 0 && comps[0].rg > 0 && comps[c].span == m * comps[c].rg
                                                && (totalIMcuRows - 1) * comps[c].span < heights[c] <= totalIMcuRows * comps[c].span
                                                && RowGroups(heights[c], comps[c].rg) == RowGroups(heights[0],
                                                    comps[0].rg)
      requires forall c, d :: 0 <= c < d < |comps| ==> Apart(comps[c], comps[d])
      modifies set c | 0 <= c < |comps| :: comps[c].list0, set c | 0 <= c < |comps| :: comps[c].list1
      ensures this.m == m && this.totalIMcuRows == totalIMcuRows && this.comps == comps && this.heights == heights
      ensures this.around == around && Valid() && around.log == []
    {
      this.m := m;
      this.totalIMcuRows := totalIMcuRows;
      this.comps := comps;
      this.heights := heights;
      this.around := around;
      bufferFull := false;
      rowgroupCtr := 0;
      rowgroupsAvail := 0;
      whichptr := 0;
      contextState := PrepareForIMcu;
      iMcuRowCtr := 0;
      new;
      Elsewhere();
      MakeFunnyPointers();
    }

    lemma Elsewhere()
      ensures forall o: object :: o in Pointers() ==> o != around && o != this && o !in Workspace()
      ensures forall o: object :: o in Workspace() ==> o != around && o != this && o !in Pointers()
    {
    }

    // ----- the loops over the components

    ghost predicate AllWaiting(w: Which, k: nat)
      reads Pointers(), Workspace()
    {
      forall c :: 0 <= c < |comps| ==> comps[c].Waiting(w, k)
    }

    ghost predicate AllReady(w: Which, r: nat)
      reads Pointers(), Workspace()
    {
      forall c :: 0 <= c < |comps| ==> comps[c].Ready(w, r)
    }

    ghost predicate AllAtBottom(w: Which)
      requires |comps| == |heights| && totalIMcuRows > 0
      reads Pointers(), Workspace()
    {
      forall c :: 0 <= c < |comps| ==> comps[c].Safe() && comps[c].Bottom(w, totalIMcuRows - 1, heights[c])
    }

    method MakeFunnyPointers()
      requires Distinct() && forall c :: 0 <= c < |comps| ==> comps[c].Safe()
      modifies Pointers()
      ensures AllWaiting(0, 0)
    {
      for ci := 0 to |comps|
        invariant forall c :: 0 <= c < ci ==> comps[c].Waiting(0, 0)
        invariant forall c :: ci <= c < |comps| ==> comps[c].Safe()
      {
        comps[ci].MakeFunnyPointers();
      }
    }

    method SetWraparoundPointers()
      requires Distinct() && AllReady(0, 0)
      modifies Pointers()
      ensures AllWaiting(1, 1)
    {
      hide RowLists.Ready, RowLists.Waiting;
      for ci := 0 to |comps|
        invariant forall c :: 0 <= c < ci ==> comps[c].Waiting(1, 1)
        invariant forall c :: ci <= c < |comps| ==> comps[c].Ready(0, 0)
      {
        comps[ci].EndOfTop();
      }
    }

    /** The coefficient controller fills the list in use, all of its iMCU row or only some rows. */
    method DecompressData() returns (ok: bool)
      requires Distinct() && AllWaiting(whichptr, iMcuRowCtr)
      modifies around`stalls, Workspace()
      ensures if ok then AllReady(whichptr, iMcuRowCtr) else AllWaiting(whichptr, iMcuRowCtr)
      ensures around.stalls == if old(around.stalls) == [] then [] else old(around.stalls)[1..]
      ensures ok <==> old(around.stalls) == []
    {
      if |around.stalls| == 0 {
        ReceiveAll();
        return true;
      }
      var stall := around.stalls[0];
      around.stalls := around.stalls[1..];
      ReceiveSome(stall);
      return false;
    }

    method ReceiveAll()
      requires Distinct() && AllWaiting(whichptr, iMcuRowCtr)
      modifies Workspace()
      ensures AllReady(whichptr, iMcuRowCtr)
    {
      hide RowLists.Ready, RowLists.Waiting;
      for ci := 0 to |comps|
        invariant forall c :: 0 <= c < ci ==> comps[c].Ready(whichptr, iMcuRowCtr)
        invariant forall c :: ci <= c < |comps| ==> comps[c].Waiting(whichptr, iMcuRowCtr)
      {
        comps[ci].Receive(whichptr, iMcuRowCtr, comps[ci].span);
      }
    }

    method ReceiveSome(n: nat)
      requires Distinct() && AllWaiting(whichptr, iMcuRowCtr)
      modifies Workspace()
      ensures AllWaiting(whichptr, iMcuRowCtr)
    {
      for ci := 0 to |comps|
        invariant AllWaiting(whichptr, iMcuRowCtr)
      {
        comps[ci].Receive(whichptr, iMcuRowCtr, if n < comps[ci].span then n else comps[ci].span - 1);
      }
    }

    // ----- what is shown

    /** What the postprocessor should be shown for row group n. The last row group before the last iMCU row is
        shown with the raw rows of that iMCU row. */
    ghost function Expect(n: nat): (e: seq<seq<int>>)
      requires |comps| == |heights| && totalIMcuRows > 0
      ensures |e| == |comps|
    {
      seq(|comps|, c requires 0 <= c < |comps| => Shown(comps[c].rg, heights[c], n, n + 1 == (totalIMcuRows - 1) * m))
    }

    /** The list in use shows row group n at index g. */
    ghost predicate CanShow(g: nat, n: nat)
      requires |comps| == |heights| && totalIMcuRows > 0
      reads `whichptr, Pointers(), Workspace()
    {
      forall c :: 0 <= c < |comps| ==> CompShows(comps[c], g, Expect(n)[c])
    }

    ghost predicate CompShows(b: RowLists, g: nat, e: seq<int>)
      reads `whichptr, b.rows, b.list0, b.list1
    {
      b.Safe() && 0 <= g * b.rg <= b.span + b.rg && forall v :: b.Shows(whichptr, g, v) ==> v == e
    }

    /** The same, for the row group with the given distance from its index. */
    ghost predicate ShowsFrom(g: nat, shift: int)
      requires |comps| == |heights| && totalIMcuRows > 0
      reads `whichptr, Pointers(), Workspace()
    {
      g + shift >= 0 && CanShow(g, g + shift)
    }

    ghost predicate LogOk()
      requires |comps| == |heights| && totalIMcuRows > 0
      reads around
    {
      forall n :: 0 <= n < |around.log| ==> around.log[n] == Expect(n)
    }

    /** post_process_data: takes row groups while there are any and there is room for their output. */
    method PostProcess(room: nat, ghost shift: int) returns (left: nat)
      requires |comps| == |heights| && totalIMcuRows > 0 && LogOk() && |around.log| == rowgroupCtr + shift
      requires rowgroupCtr <= rowgroupsAvail && forall g :: rowgroupCtr <= g < rowgroupsAvail ==> ShowsFrom(g, shift)
      modifies `rowgroupCtr, around`log
      ensures LogOk() && old(rowgroupCtr) <= rowgroupCtr <= rowgroupsAvail
      ensures |around.log| == rowgroupCtr + shift && left + (rowgroupCtr - old(rowgroupCtr)) == room
      ensures rowgroupCtr < rowgroupsAvail ==> left == 0
    {
      hide MainController.CanShow;
      left := room;
      while rowgroupCtr < rowgroupsAvail && left > 0
        invariant LogOk() && old(rowgroupCtr) <= rowgroupCtr <= rowgroupsAvail
        invariant |around.log| == rowgroupCtr + shift && left + (rowgroupCtr - old(rowgroupCtr)) == room
        invariant forall g :: rowgroupCtr <= g < rowgroupsAvail ==> ShowsFrom(g, shift)
        decreases left
      {
        assert ShowsFrom(rowgroupCtr, shift);
        Elsewhere();
        var views := ReadGroup(rowgroupCtr, |around.log|);
        around.log := around.log + [views];
        rowgroupCtr := rowgroupCtr + 1;
        left := left - 1;
      }
    }

    method ReadGroup(g: nat, ghost n: nat) returns (views: seq<seq<int>>)
      requires |comps| == |heights| && totalIMcuRows > 0 && CanShow(g, n)
      ensures views == Expect(n)
    {
      views := [];
      for ci := 0 to |comps|
        invariant |views| == ci && forall c :: 0 <= c < ci ==> views[c] == Expect(n)[c]
      {
        assert CompShows(comps[ci], g, Expect(n)[ci]);
        var v := comps[ci].Read(whichptr, g);
        views := views + [v];
      }
    }

    // ----- sizes

    lemma OfSize(c: nat)
      requires Sizes() && c < |comps|
      ensures SizeOk(comps[c].rg, comps[c].span, heights[c]) && RowGroups(heights[c], comps[c].rg) == NumGroups()
    {
    }

    /** Row groups start within the image. */
    lemma GroupStarts(height: nat, rg: nat, n: nat)
      requires rg > 0 && height > 0 && n < RowGroups(height, rg)
      ensures n * rg < height
    {
      RoundsUp(height, rg);
      MulMonotone(n, RowGroups(height, rg) - 1, rg);
    }

    /** The last iMCU row of a component: rows left, and the row groups they make. */
    lemma LastRow(rg: nat, span: nat, height: nat)
      requires SizeOk(rg, span, height) && m > 0
      ensures var left := height - (totalIMcuRows - 1) * span;
              && 0 < left <= span && left == Last(height, span)
              && RowGroups(height, rg) == (totalIMcuRows - 1) * m + ((left - 1) / rg + 1)
              && 0 < (left - 1) / rg + 1 <= m
    {
      LastIs(height, span, totalIMcuRows);
      LastGroups(rg, span, height, totalIMcuRows - 1);
    }

    lemma LastGroups(rg: nat, span: nat, height: nat, k: nat)
      requires rg > 0 && m > 0 && span == m * rg && k * span < height <= (k + 1) * span
      ensures var left := height - k * span;
              RowGroups(height, rg) == k * m + ((left - 1) / rg + 1) && 0 < (left - 1) / rg + 1 <= m
    {
      MulAdd(k, 1, span);
      var left := height - k * span;
      var q, r := (left - 1) / rg, (left - 1) % rg;
      assert left - 1 == q * rg + r;
      MulAssociateLeft(k, m, rg);
      MulAdd(k * m, q, rg);
      MulAdd(k * m + q, 1, rg);
      DivModUnique(height + rg - 1, rg, k * m + q + 1, r);
      if q >= m {
        MulMonotone(m, q, rg);
      }
      MulMonotone(0, q, rg);
      QuotientAtLeast(left - 1, rg, 0);
    }

    // ----- what each state shows

    lemma ShowsFirst(r: nat, g: nat)
      requires Sizes() && AllReady(whichptr, r) && r < totalIMcuRows - 1 && g + 2 <= m
      ensures ShowsFrom(g, r * m)
    {
      MulAdd(r, 1, m);
      MulMonotone(r + 1, totalIMcuRows - 1, m);
      var n := g + r * m;
      forall c | 0 <= c < |comps|
        ensures CompShows(comps[c], g, Expect(n)[c])
      {
        var b := comps[c];
        OfSize(c);
        MulMonotone(r + 1, totalIMcuRows - 1, b.span);
        MulMonotone(g, m, b.rg);
        MulMonotone(0, g, b.rg);
        forall v | b.Shows(whichptr, g, v)
          ensures v == Expect(n)[c]
        {
          b.FirstGroups(whichptr, r, g, m, heights[c], v);
        }
      }
    }

    lemma ShowsPostponed(r: nat)
      requires Sizes() && AllReady(whichptr, r) && 0 < r < totalIMcuRows
      ensures ShowsFrom(m + 1, r * m - m - 2)
    {
      MulMonotone(1, r, m);
      var n, g := r * m - 1, m + 1;
      if r < totalIMcuRows - 1 {
        MulAdd(r, 1, m);
        MulMonotone(r + 1, totalIMcuRows - 1, m);
      }
      forall c | 0 <= c < |comps|
        ensures CompShows(comps[c], g, Expect(n)[c])
      {
        var b := comps[c];
        OfSize(c);
        MulAdd(m, 1, b.rg);
        if r < totalIMcuRows - 1 {
          MulAdd(r, 1, b.span);
          MulMonotone(r + 1, totalIMcuRows - 1, b.span);
        }
        forall v | b.Shows(whichptr, g, v)
          ensures v == Expect(n)[c]
        {
          b.PostponedGroup(whichptr, r, m, heights[c], v);
        }
      }
    }

    lemma ShowsBottom(g: nat)
      requires Sizes() && AllAtBottom(whichptr) && (totalIMcuRows - 1) * m + g < NumGroups()
      ensures ShowsFrom(g, (totalIMcuRows - 1) * m)
    {
      var r := totalIMcuRows - 1;
      MulMonotone(0, r, m);
      var n := g + r * m;
      forall c | 0 <= c < |comps|
        ensures CompShows(comps[c], g, Expect(n)[c])
      {
        var b := comps[c];
        OfSize(c);
        LastRow(b.rg, b.span, heights[c]);
        GroupStarts(heights[c], b.rg, n);
        b.GroupRows(r, m, g);
        MulMonotone(g, m, b.rg);
        MulMonotone(0, g, b.rg);
        forall v | b.Shows(whichptr, g, v)
          ensures v == Expect(n)[c]
        {
          b.BottomGroup(whichptr, r, g, m, heights[c], v);
        }
      }
    }

    /** set_bottom_pointers: the row groups left are counted for the first component only. */
    method SetBottomPointers()
      requires Sizes() && Distinct() && AllReady(whichptr, totalIMcuRows - 1)
      modifies `rowgroupsAvail, Pointers()
      ensures AllAtBottom(whichptr) && rowgroupsAvail == NumGroups() - (totalIMcuRows - 1) * m > 0
    {
      hide MainController.AllSized, RowLists.Ready, RowLists.Bottom, RowLists.Safe, MainController.NumGroups;
      for ci := 0 to |comps|
        invariant forall c :: 0 <= c < ci ==>
                  comps[c].Safe() && comps[c].Bottom(whichptr, totalIMcuRows - 1, heights[c])
        invariant forall c :: ci <= c < |comps| ==> comps[c].Ready(whichptr, totalIMcuRows - 1)
        invariant ci > 0 ==> rowgroupsAvail == NumGroups() - (totalIMcuRows - 1) * m > 0
      {
        var groups := SetBottom(ci);
        if ci == 0 {
          rowgroupsAvail := groups;
        }
      }
    }

    method SetBottom(ci: nat) returns (groups: nat)
      requires Sizes() && ci < |comps| && comps[ci].Ready(whichptr, totalIMcuRows - 1)
      modifies comps[ci].list0, comps[ci].list1
      ensures comps[ci].Safe() && comps[ci].Bottom(whichptr, totalIMcuRows - 1, heights[ci])
      ensures groups == NumGroups() - (totalIMcuRows - 1) * m > 0
    {
      hide MainController.AllSized, RowLists.Ready, RowLists.Bottom, RowLists.Safe, MainController.NumGroups, RowGroups;
      var b := comps[ci];
      OfSize(ci);
      LastRow(b.rg, b.span, heights[ci]);
      var rowsLeft := heights[ci] % b.span;
      if rowsLeft == 0 {
        rowsLeft := b.span;
      }
      groups := (rowsLeft - 1) / b.rg + 1;
      b.EndOfImage(whichptr, totalIMcuRows - 1, rowsLeft, heights[ci]);
    }

    /** Between calls. */
    ghost predicate Phase()
      requires Sizes()
      reads this, around, Pointers(), Workspace()
    {
      var last := NumGroups() - (totalIMcuRows - 1) * m;
      if !bufferFull then
        if iMcuRowCtr == 0 then
          contextState.PrepareForIMcu? && |around.log| == 0 && AllWaiting(whichptr, 0)
        else if iMcuRowCtr < totalIMcuRows then
          && contextState.PostponedRow? && rowgroupCtr == m + 1 && rowgroupsAvail == m + 2
          && |around.log| == iMcuRowCtr * m - 1 && AllWaiting(whichptr, iMcuRowCtr)
        else |around.log| == NumGroups()
      else
        0 < iMcuRowCtr <= totalIMcuRows &&
        var r := iMcuRowCtr - 1;
        match contextState
        case PrepareForIMcu => |around.log| == r * m && AllReady(whichptr, r)
        case ProcessIMcu =>
          && rowgroupCtr < rowgroupsAvail && |around.log| == r * m + rowgroupCtr
          && (if r < totalIMcuRows - 1 then rowgroupsAvail == m - 1 && AllReady(whichptr, r)
              else rowgroupsAvail == last && AllAtBottom(whichptr))
        case PostponedRow =>
          && r > 0 && rowgroupCtr == m + 1 && rowgroupsAvail == m + 2
          && |around.log| == r * m - 1 && AllReady(whichptr, r)
    }

    ghost predicate Valid()
      reads this, around, Pointers(), Workspace()
    {
      Sizes() && Distinct() && LogOk() && Phase()
    }

    /** Feeds the postprocessor a postponed row group. */
    method FeedPostponed(room: nat) returns (left: nat)
      requires Valid() && bufferFull && contextState.PostponedRow?
      modifies `rowgroupCtr, `contextState, around`log
      ensures Valid() && bufferFull && left <= room
      ensures if rowgroupCtr < rowgroupsAvail then contextState.PostponedRow? &&
              left == 0 else contextState.PrepareForIMcu?
      ensures |old(around.log)| <= |around.log| && |around.log| - |old(around.log)| == room - left
    {
      hide MainController.AllReady, MainController.AllAtBottom, MainController.AllWaiting, MainController.Distinct,
           MainController.CanShow,
           MainController.AllSized, MainController.NumGroups;
      ghost var r := iMcuRowCtr - 1;
      ShowsPostponed(r);
      Elsewhere();
      left := PostProcess(room, r * m - m - 2);
      if rowgroupCtr >= rowgroupsAvail {
        contextState := PrepareForIMcu;
      }
    }

    /** Sets up the row groups of an iMCU row. */
    method Prepare()
      requires Valid() && bufferFull && contextState.PrepareForIMcu?
      modifies `rowgroupCtr, `rowgroupsAvail, `contextState, Pointers()
      ensures Valid() && bufferFull && contextState.ProcessIMcu?
    {
      hide MainController.AllReady, MainController.AllAtBottom, MainController.AllWaiting, MainController.Distinct,
           MainController.AllSized, MainController.NumGroups, MainController.Expect;
      Elsewhere();
      rowgroupCtr := 0;
      rowgroupsAvail := m - 1;
      if iMcuRowCtr == totalIMcuRows {
        SetBottomPointers();
      }
      contextState := ProcessIMcu;
    }

    /** Feeds the postprocessor the row groups of an iMCU row, all but the last one unless at the bottom; then
        turns to the other list. */
    method Process(room: nat) returns (left: nat)
      requires Valid() && bufferFull && contextState.ProcessIMcu?
      modifies `rowgroupCtr, `rowgroupsAvail, `contextState, `bufferFull, `whichptr, around`log, Pointers()
      ensures Valid() && left <= room
      ensures |old(around.log)| <= |around.log| && |around.log| - |old(around.log)| == room - left
      ensures room > 0 ==> left < room
    {
      hide MainController.AllReady, MainController.AllAtBottom, MainController.AllWaiting, MainController.Distinct,
           MainController.CanShow,
           MainController.AllSized, MainController.NumGroups, MainController.Expect;
      Elsewhere();
      ghost var r := iMcuRowCtr - 1;
      MulMonotone(0, r, m);
      forall g | rowgroupCtr <= g < rowgroupsAvail
        ensures ShowsFrom(g, r * m)
      {
        if r < totalIMcuRows - 1 {
          ShowsFirst(r, g);
        } else {
          ShowsBottom(g);
        }
      }
      left := PostProcess(room, r * m);
      if rowgroupCtr < rowgroupsAvail {
        return;
      }
      MulAdd(r, 1, m);
      Turn(r);
      whichptr := 1 - whichptr;
      bufferFull := false;
      rowgroupCtr := m + 1;
      rowgroupsAvail := m + 2;
      contextState := PostponedRow;
    }

    /** After the first iMCU row the pointers are set to their normal state. */
    method Turn(ghost r: nat)
      requires Sizes() && Distinct() && iMcuRowCtr == r + 1 <= totalIMcuRows
      requires if r < totalIMcuRows - 1 then AllReady(whichptr, r) else AllAtBottom(whichptr)
      modifies Pointers()
      ensures Distinct() && (r < totalIMcuRows - 1 ==> AllWaiting(1 - whichptr, r + 1))
    {
      if iMcuRowCtr == 1 {
        if totalIMcuRows > 1 {
          FirstIsZero();
          SetWraparoundPointers();
        } else {
          for ci := 0 to |comps|
            invariant forall c :: 0 <= c < |comps| ==> comps[c].Safe()
          {
            comps[ci].SetWraparoundPointers();
          }
        }
      } else if r < totalIMcuRows - 1 {
        forall c | 0 <= c < |comps|
          ensures comps[c].Waiting(1 - whichptr, r + 1)
        {
          comps[c].EndOfRow(whichptr, r);
        }
      }
    }

    lemma FirstIsZero()
      requires Sizes() && AllReady(whichptr, 0)
      ensures whichptr == 0
    {
      assert comps[0].Ready(whichptr, 0);
    }

    /** Row groups are left only while there is data. */
    lemma InBounds()
      requires Valid()
      ensures |around.log| <= NumGroups()
      ensures |around.log| < NumGroups() ==> bufferFull || iMcuRowCtr < totalIMcuRows
    {
      hide MainController.AllReady, MainController.AllAtBottom, MainController.AllWaiting, MainController.Distinct,
           MainController.Expect;
      OfSize(0);
      LastRow(comps[0].rg, comps[0].span, heights[0]);
      if 0 < iMcuRowCtr < totalIMcuRows {
        MulMonotone(iMcuRowCtr, totalIMcuRows - 1, m);
        MulAdd(iMcuRowCtr, 1, m);
      }
    }

    /** Gets an iMCU row, if it does not suspend. */
    method Fill() returns (ok: bool)
      requires Valid() && !bufferFull && iMcuRowCtr < totalIMcuRows
      modifies `bufferFull, `iMcuRowCtr, around`stalls, Workspace()
      ensures Valid() && ok == bufferFull && around.log == old(around.log)
      ensures if ok then around.stalls == old(around.stalls) && !contextState.ProcessIMcu?
              else |around.stalls| < |old(around.stalls)|
    {
      hide MainController.AllReady, MainController.AllAtBottom, MainController.AllWaiting, MainController.Distinct,
           MainController.AllSized, MainController.NumGroups, MainController.Expect;
      Elsewhere();
      ok := DecompressData();
      if ok {
        bufferFull := true;
        iMcuRowCtr := iMcuRowCtr + 1;
      }
    }

    /** process_data_context_main: room is how many row groups the output buffer can take. */
    method ProcessData(room: nat)
      requires Valid() && (bufferFull || iMcuRowCtr < totalIMcuRows)
      modifies this, around, Pointers(), Workspace()
      ensures Valid() && |around.log| >= |old(around.log)| && |around.stalls| <= |old(around.stalls)|
      ensures |around.stalls| < |old(around.stalls)| || |around.log| > |old(around.log)| || room == 0
    {
      hide MainController.Phase, MainController.Distinct, MainController.Sizes, MainController.LogOk;
      Elsewhere();
      if !bufferFull {
        var ok := Fill();
        if !ok {
          return;
        }
      }
      var left := room;
      if contextState.PostponedRow? {
        left := FeedPostponed(left);
        if rowgroupCtr < rowgroupsAvail {
          return;
        }
        if left == 0 {
          return;
        }
      }
      if contextState.PrepareForIMcu? {
        Prepare();
      }
      left := Process(left);
    }
  }

  /** The rows of a component: numGroups row groups, the last perhaps not whole. */
  function Height(height: nat, lines: nat, m: nat, rg: nat): nat
    requires lines > 0
  {
    DivRoundUp(height * (m * rg), lines)
  }

  /** Every component has its rows in the same number of iMCU rows, and in the same number of row groups. */
  lemma SameGroups(height: nat, lines: nat, m: nat, rg: nat)
    requires height > 0 && lines > 0 && m > 0 && rg > 0
    ensures var h, total := Height(height, lines, m, rg), DivRoundUp(height, lines);
            && total > 0 && (total - 1) * (m * rg) < h <= total * (m * rg)
            && RowGroups(h, rg) == DivRoundUp(height * m, lines)
  {
    MulMonotone(1, m, rg);
    NestedCeilings(height, m * rg, lines);
    MulMonotone(1, height, m);
    RoundUpTwice(height * m, rg, lines);
    MulAssociateLeft(height, m, rg);
  }

  /** Shown raw, the row group is all the same shown with rows of the image only exactly when the rows around
      it are there; the rows next to it always are. */
  lemma WhenRawIsExact(rg: nat, height: nat, n: nat)
    requires rg > 0 && 0 < n && (n + 1) * rg < height
    ensures Shown(rg, height, n, true) == Shown(rg, height, n, false) <==> (n + 2) * rg <= height
    ensures forall t :: 0 <= t <= 2 * rg ==> Shown(rg, height, n, true)[t] == Shown(rg, height, n, false)[t]
  {
    MulAdd(n, 1, rg);
    MulAdd(n, 2, rg);
    MulMonotone(1, n, rg);
    var raw, exact := Shown(rg, height, n, true), Shown(rg, height, n, false);
    assert forall t :: 0 <= t < 3 * rg ==> raw[t] == n * rg - rg + t && exact[t] == Clamp(n * rg - rg + t, height);
    if (n + 2) * rg > height {
      var t := 3 * rg - 1;
      assert raw[t] != exact[t];
    }
  }

  /** Which row groups are shown with rows of the image only: all but the one postponed to the last iMCU row,
      and that one too if the group after it is whole. */
  predicate ShownExactly(rg: nat, height: nat, total: nat, m: nat, n: nat) {
    n + 1 != (total - 1) * m || (n + 2) * rg <= height
  }

  lemma ShownAsSaid(rg: nat, h: nat, total: nat, m: nat, n: nat)
    requires 2 <= m && rg > 0 && total > 0 && (total - 1) * (m * rg) < h
    ensures Shown(rg, h, n, n + 1 == (total - 1) * m) == Shown(rg, h, n, false) <==> ShownExactly(rg, h, total, m, n)
  {
    hide Shown;
    if n + 1 == (total - 1) * m {
      MulAssociateLeft(total - 1, m, rg);
      assert total > 1;
      MulMonotone(1, total - 1, m);
      WhenRawIsExact(rg, h, n);
    }
  }

  lemma ShownFrom(rg: nat, height: nat, n: nat, first: int)
    requires first == n * rg - rg
    ensures forall t :: 0 <= t < 3 * rg ==> Shown(rg, height, n, true)[t] == first + t
    ensures forall t :: 0 <= t < 3 * rg ==> Shown(rg, height, n, false)[t] == Clamp(first + t, height)
  {
  }

  lemma HeightIs(height: nat, lines: nat, m: nat, rg: nat, rows: nat)
    requires lines > 0 && height * (m * rg) == rows
    ensures Height(height, lines, m, rg) == (rows + lines - 1) / lines
  {
  }

  /** An image of 17 rows with two rows to a row group: the group of rows 14 and 15, postponed to the second
      iMCU row, is shown with row 17 below it, which is padding. */
  lemma PostponedShowsPadding()
    ensures Height(17, 16, 8, 2) == 17 && DivRoundUp(17, 16) == 2
    ensures Shown(2, 17, 7, true) == [12, 13, 14, 15, 16, 17] && Shown(2, 17, 7, false) == [12, 13, 14, 15, 16, 16]
    ensures !ShownExactly(2, 17, 2, 8, 7)
  {
    HeightIs(17, 16, 8, 2, 272);
    ShownFrom(2, 17, 7, 12);
  }

  /** The workspaces and lists of the components, rgs[c] rows to a row group of component c. */
  method Allocate(height: nat, lines: nat, m: nat, rgs: seq<nat>) returns (comps: seq<RowLists>, heights: seq<nat>)
    requires height > 0 && lines > 0 && 2 <= m && forall c :: 0 <= c < |rgs| ==> rgs[c] > 0
    ensures |comps| == |heights| == |rgs|
    ensures forall c :: 0 <= c < |rgs| ==> comps[c].Safe() && comps[c].rg == rgs[c] && comps[c].span == m * rgs[c]
    ensures forall c :: 0 <= c < |rgs| ==> heights[c] == Height(height, lines, m, rgs[c])
    ensures forall c :: 0 <= c < |rgs| ==>
            fresh(comps[c]) && fresh(comps[c].list0) && fresh(comps[c].list1) && fresh(comps[c].rows)
    ensures forall c, d :: 0 <= c < d < |rgs| ==> Apart(comps[c], comps[d])
  {
    hide Height;
    comps, heights := [], [];
    for n := 0 to |rgs|
      invariant |comps| == |heights| == n
      invariant forall c :: 0 <= c < n ==> comps[c].Safe() && comps[c].rg == rgs[c] && comps[c].span == m * rgs[c]
      invariant forall c :: 0 <= c < n ==> heights[c] == Height(height, lines, m, rgs[c])
      invariant forall c :: 0 <= c < n ==>
                fresh(comps[c]) && fresh(comps[c].list0) && fresh(comps[c].list1) && fresh(comps[c].rows)
      invariant forall c, d :: 0 <= c < d < n ==> Apart(comps[c], comps[d])
    {
      MulMonotone(2, m, rgs[n]);
      var b := new RowLists(rgs[n], m * rgs[n]);
      comps := comps + [b];
      heights := heights + [Height(height, lines, m, rgs[n])];
    }
  }

  /** Every row group is shown once, in order, whatever the suspensions of the input and the room for output in
      each call. The rows above and below it are those of the image, the first and last repeated at the edges,
      but for one row group: the one postponed to the last iMCU row may be shown with a row of padding below it. */
  method ShowAll(height: nat, lines: nat, m: nat, rgs: seq<nat>, stalls: seq<nat>, rooms: seq<nat>)
    returns (log: seq<seq<seq<int>>>)
    requires height > 0 && lines > 0 && 2 <= m && 0 < |rgs| && forall c :: 0 <= c < |rgs| ==> rgs[c] > 0
    ensures |log| == DivRoundUp(height * m, lines) && forall n :: 0 <= n < |log| ==> |log[n]| == |rgs|
    ensures forall n, c :: 0 <= n < |log| && 0 <= c < |rgs| ==>
              (log[n][c] == Shown(rgs[c], Height(height, lines, m, rgs[c]), n, n + 1 == (DivRoundUp(height,
                  lines) - 1) * m))
    ensures forall n, c :: 0 <= n < |log| && 0 <= c < |rgs| ==>
              (log[n][c] == Shown(rgs[c], Height(height, lines, m, rgs[c]), n, false)
               <==> ShownExactly(rgs[c], Height(height, lines, m, rgs[c]), DivRoundUp(height, lines), m, n))
  {
    hide ShownExactly, Shown, Height, RowGroups, DivRoundUp, MainController.Sizes, MainController.Phase,
         MainController.Distinct;
    var total := DivRoundUp(height, lines);
    var comps, heights := Allocate(height, lines, m, rgs);
    forall c | 0 <= c < |rgs|
      ensures (total - 1) * (m * rgs[c]) < heights[c] <= total * (m * rgs[c])
      ensures total > 0 && RowGroups(heights[c], rgs[c]) == DivRoundUp(height * m, lines)
    {
      SameGroups(height, lines, m, rgs[c]);
    }
    assert total > 0 && comps[0].rg == rgs[0];
    var around := new Surroundings(stalls);
    var main := new MainController(m, total, comps, heights, around);
    var waiting := rooms;
    main.InBounds();
    while |around.log| < main.NumGroups()
      invariant fresh(main) && fresh(around) && main.Valid() && main.around == around && main.comps == comps
      invariant main.heights == heights && main.m == m && main.totalIMcuRows == total
      invariant |around.log| <= main.NumGroups()
      decreases |waiting| + |around.stalls|, main.NumGroups() - |around.log|
    {
      var room := main.NumGroups();
      if |waiting| > 0 {
        room := waiting[0];
        waiting := waiting[1..];
      }
      main.InBounds();
      main.ProcessData(room);
      main.InBounds();
    }
    log := around.log;
    AsExpected(main);
    forall n, c | 0 <= n < |log| && 0 <= c < |rgs|
      ensures log[n][c] == Shown(rgs[c], Height(height, lines, m, rgs[c]), n, false)
              <==> ShownExactly(rgs[c], Height(height, lines, m, rgs[c]), total, m, n)
    {
      ShownAsSaid(rgs[c], heights[c], total, m, n);
    }
  }

  lemma AsExpected(main: MainController)
    requires main.Valid()
    ensures 0 < |main.comps| == |main.heights| && main.totalIMcuRows > 0 && main.comps[0].rg > 0
    ensures main.NumGroups() == RowGroups(main.heights[0], main.comps[0].rg)
    ensures forall n :: 0 <= n < |main.around.log| ==> |main.around.log[n]| == |main.comps|
    ensures forall n, c :: 0 <= n < |main.around.log| && 0 <= c < |main.comps| ==>
              (main.around.log[n][c] == Shown(main.comps[c].rg, main.heights[c], n,
                  n + 1 == (main.totalIMcuRows - 1) * main.m))
  {
    hide MainController.Phase, MainController.Distinct;
    main.OfSize(0);
  }
}
