// Successive approximation: one more bit of every AC coefficient of a band (section G.1.2.3 of T.81).
// Coefficients that were nonzero before get correction bits, which follow the symbol that ends the run
// they lie in; blocks without new nonzero coefficients join end-of-band runs, corrections and all.
module HuffRefine {
  import opened Powers
  import opened Coefs
  import opened HuffCode
  import opened HuffTables
  import opened HuffBits
  import opened HuffBlock
  import opened HuffSpectral

  const MAX_CORR_BITS := 1000
  const DCTSIZE2 := 64

  // More corrections than this could overflow the buffer with the next block.
  const CORR_LIMIT := MAX_CORR_BITS - DCTSIZE2 + 1

  // ----- ops

  /** The index of the last newly nonzero coefficient below n, or 0. */
  function LastNew(zz: Zz, ss: nat, n: nat): (r: nat)
    requires n <= |zz|
    ensures forall i :: ss <= i < n && Abs(zz[i]) == 1 ==> i <= r
  {
    if n <= ss then 0 else if Abs(zz[n - 1]) == 1 then n - 1 else LastNew(zz, ss, n - 1)
  }

  function Odd(v: int): bool {
    v % 2 == 1
  }

  ghost function RefineSegment(tbl: nat, ss: nat, blocks: seq<Zz>, run: nat, corr: seq<bool>): Ops
    decreases |blocks|, 0, 0, 0, 0
  {
    if blocks == [] then EobOps(tbl, run, corr, Done) else RefineOps(tbl, ss, blocks[0], ss, 0, [], run, corr,
        blocks[1..])
  }

  /** The rest of block zz from index k on, after r zeros and the corrections br, and of the segment. */
  ghost function RefineOps(tbl: nat, ss: nat, zz: Zz, k: nat, r: nat, br: seq<bool>, run: nat, corr: seq<bool>,
                           more: seq<Zz>): Ops
    decreases |more|, 1, if k < |zz| then |zz| - k else 0, r, run
  {
    if k >= |zz| then
      if r == 0 && br == [] then RefineSegment(tbl, ss, more, run, corr)
      else if run + 1 == MAX_RUN || |corr + br| > CORR_LIMIT then
        EobOps(tbl, run + 1, corr + br, RefineSegment(tbl, ss, more, 0, []))
      else RefineSegment(tbl, ss, more, run + 1, corr + br)
    else if zz[k] == 0 then RefineOps(tbl, ss, zz, k + 1, r + 1, br, run, corr, more)
    else if r > 15 && k <= LastNew(zz, ss, |zz|) then
      if run > 0 then EobOps(tbl, run, corr, RefineOps(tbl, ss, zz, k, r, br, 0, [], more))
      else Then(Sym(AcSlot(tbl), ZRL), CorrOps(br, RefineOps(tbl, ss, zz, k, r - 16, [], 0, [], more)))
    else if Abs(zz[k]) > 1 then RefineOps(tbl, ss, zz, k + 1, r, br + [Odd(zz[k])], run, corr, more)
    else if run > 0 then EobOps(tbl, run, corr, RefineOps(tbl, ss, zz, k, r, br, 0, [], more))
    else
      Then(Sym(AcSlot(tbl), 16 * r + 1), Then(Raw(if zz[k] < 0 then 0 else 1, 1),
           CorrOps(br, RefineOps(tbl, ss, zz, k + 1, 0, [], 0, [], more))))
  }

  // ----- the structure of a block

  /** From index k on, after r zeros, the index that makes the encoder write a symbol, or the end. */
  function Next(zz: Zz, ss: nat, k: nat, r: nat): (j: nat)
    requires ss <= k <= |zz|
    ensures k <= j <= |zz|
    ensures forall i :: k <= i < j ==> Abs(zz[i]) != 1
    decreases |zz| - k
  {
    if k == |zz| then k
    else if zz[k] == 0 then Next(zz, ss, k + 1, r + 1)
    else if r > 15 && k <= LastNew(zz, ss, |zz|) then k
    else if Abs(zz[k]) > 1 then Next(zz, ss, k + 1, r)
    else k
  }

  /** The zeros between two indices. */
  function Zeros(zz: Zz, k: nat, j: nat): nat
    requires j <= |zz|
    decreases j - k
  {
    if k >= j then 0 else (if zz[k] == 0 then 1 else 0) + Zeros(zz, k + 1, j)
  }

  /** The correction bits between two indices. */
  function Corr(zz: Zz, k: nat, j: nat): (c: seq<bool>)
    requires j <= |zz|
    ensures k <= j ==> |c| <= j - k
    decreases j - k
  {
    if k >= j then [] else if Abs(zz[k]) > 1 then [Odd(zz[k])] + Corr(zz, k + 1, j) else Corr(zz, k + 1, j)
  }

  lemma {:induction false} Reach(tbl: nat, ss: nat, zz: Zz, k: nat, r: nat, br: seq<bool>, run: nat, corr: seq<bool>,
                                 more: seq<Zz>)
    requires ss <= k <= |zz|
    ensures var j := Next(zz, ss, k, r);
            RefineOps(tbl, ss, zz, k, r, br, run, corr, more) ==
            RefineOps(tbl, ss, zz, j, r + Zeros(zz, k, j), br + Corr(zz, k, j), run, corr, more)
    decreases |zz| - k
  {
    var j := Next(zz, ss, k, r);
    if k < j {
      if zz[k] == 0 {
        Reach(tbl, ss, zz, k + 1, r + 1, br, run, corr, more);
      } else {
        Reach(tbl, ss, zz, k + 1, r, br + [Odd(zz[k])], run, corr, more);
        assert br + [Odd(zz[k])] + Corr(zz, k + 1, j) == br + ([Odd(zz[k])] + Corr(zz, k + 1, j));
      }
    } else {
      assert br + [] == br;
    }
  }

  lemma {:induction false} RefineSkipZeros(tbl: nat, ss: nat, zz: Zz, k: nat, j: nat, r: nat, br: seq<bool>,
                                           more: seq<Zz>)
    requires ss <= k <= j <= |zz| && forall i :: k <= i < j ==> zz[i] == 0
    ensures RefineOps(tbl, ss, zz, k, r, br, 0, [], more) == RefineOps(tbl, ss, zz, j, r + (j - k), br, 0, [], more)
    decreases j - k
  {
    if k < j {
      RefineSkipZeros(tbl, ss, zz, k + 1, j, r + 1, br, more);
    }
  }

  /** With sixteen zeros behind it the encoder stops at the next nonzero coefficient. */
  lemma {:induction false} OnlyZeros(zz: Zz, ss: nat, k: nat, r: nat)
    requires ss <= k <= |zz| && r > 15 && Next(zz, ss, k, r) <= LastNew(zz, ss, |zz|)
    ensures forall i :: k <= i < Next(zz, ss, k, r) && i < |zz| ==> zz[i] == 0
    ensures Corr(zz, k, Next(zz, ss, k, r)) == [] && Zeros(zz, k, Next(zz, ss, k, r)) == Next(zz, ss, k, r) - k
    decreases |zz| - k
  {
    if k < |zz| && zz[k] == 0 {
      OnlyZeros(zz, ss, k + 1, r + 1);
    }
  }

  /** Where a run of sixteen zeros ends: no correction is left between its last zero and index j. */
  lemma {:induction false} Sixteenth(zz: Zz, ss: nat, k: nat, r: nat) returns (m: nat)
    requires ss <= k <= |zz| && r <= 15
    requires var j := Next(zz, ss, k, r); j < |zz| && r + Zeros(zz, k, j) > 15
    ensures var j := Next(zz, ss, k, r);
            && k <= m < j && zz[m] == 0 && r + Zeros(zz, k, m) == 15 && Corr(zz, k, m) == Corr(zz, k, j)
            && r + Zeros(zz, k, j) == 16 + (j - (m + 1)) && forall i :: m <= i < j ==> zz[i] == 0
    decreases |zz| - k
  {
    var j := Next(zz, ss, k, r);
    assert k < j;
    if zz[k] == 0 {
      if r == 15 {
        m := k;
        StopsEarly(zz, ss, k + 1, 16);
        OnlyZeros(zz, ss, k + 1, 16);
      } else {
        m := Sixteenth(zz, ss, k + 1, r + 1);
      }
    } else {
      m := Sixteenth(zz, ss, k + 1, r);
    }
  }

  /** The encoder writes symbols only up to the last newly nonzero coefficient. */
  lemma {:induction false} StopsEarly(zz: Zz, ss: nat, k: nat, r: nat)
    requires ss <= k <= |zz| && Next(zz, ss, k, r) < |zz|
    ensures Next(zz, ss, k, r) <= LastNew(zz, ss, |zz|)
    decreases |zz| - k
  {
    if zz[k] == 0 {
      StopsEarly(zz, ss, k + 1, r + 1);
    } else if !(r > 15 && k <= LastNew(zz, ss, |zz|)) && Abs(zz[k]) > 1 {
      StopsEarly(zz, ss, k + 1, r);
    }
  }

  // ----- runs of blocks

  /** No coefficient of the band is newly nonzero. */
  predicate Quiet(zz: Zz, ss: nat) {
    forall i :: ss <= i < |zz| ==> Abs(zz[i]) != 1
  }

  lemma {:induction false} QuietRuns(zz: Zz, ss: nat, k: nat, r: nat)
    requires 1 <= ss <= k <= |zz|
    ensures (forall i :: k <= i < |zz| ==> Abs(zz[i]) != 1) && (forall i :: ss <= i < k ==> Abs(zz[i]) != 1) ==>
              Next(zz, ss, k, r) == |zz|
    ensures (exists i :: k <= i < |zz| && Abs(zz[i]) == 1) ==> Next(zz, ss, k, r) < |zz|
    decreases |zz| - k
  {
    NoneNew(zz, ss, |zz|);
    if k < |zz| {
      if zz[k] == 0 {
        QuietRuns(zz, ss, k + 1, r + 1);
      } else if Abs(zz[k]) > 1 {
        QuietRuns(zz, ss, k + 1, r);
      }
    }
  }

  lemma {:induction false} NoneNew(zz: Zz, ss: nat, n: nat)
    requires n <= |zz|
    ensures (forall i :: ss <= i < n ==> Abs(zz[i]) != 1) ==> LastNew(zz, ss, n) == 0
    ensures LastNew(zz, ss, n) > 0 ==> ss <= LastNew(zz, ss, n) < n && Abs(zz[LastNew(zz, ss, n)]) == 1
  {
    if n > ss {
      NoneNew(zz, ss, n - 1);
    }
  }

  /** The corrections of a list of blocks, in order. */
  function AllCorr(ss: nat, blocks: seq<Zz>): seq<bool> {
    if blocks == [] then [] else Corr(blocks[0], ss, |blocks[0]|) + AllCorr(ss, blocks[1..])
  }

  /** How many of the blocks to come join a run of run blocks with n corrections. */
  ghost function RefineRun(ss: nat, blocks: seq<Zz>, run: nat, n: nat): (m: nat)
    requires run < MAX_RUN
    ensures m <= |blocks| && run + m <= MAX_RUN && forall j :: 0 <= j < m ==> Quiet(blocks[j], ss)
  {
    if blocks == [] || !Quiet(blocks[0], ss) then 0
    else
      var n' := n + |Corr(blocks[0], ss, |blocks[0]|)|;
      if run + 1 == MAX_RUN || n' > CORR_LIMIT then 1 else 1 + RefineRun(ss, blocks[1..], run + 1, n')
  }

  /** A band of corrections and zeros only is not empty. */
  lemma {:induction false} ZerosOrCorr(zz: Zz, k: nat)
    requires k < |zz| && forall i :: k <= i < |zz| ==> Abs(zz[i]) != 1
    ensures Zeros(zz, k, |zz|) > 0 || Corr(zz, k, |zz|) != []
  {
  }

  /** A block without new coefficients joins the run. */
  lemma QuietBlock(tbl: nat, ss: nat, zz: Zz, more: seq<Zz>, run: nat, corr: seq<bool>)
    requires 1 <= ss < |zz| && Quiet(zz, ss)
    ensures var c := Corr(zz, ss, |zz|);
            RefineOps(tbl, ss, zz, ss, 0, [], run, corr, more) ==
            if run + 1 == MAX_RUN || |corr + c| > CORR_LIMIT then
              EobOps(tbl, run + 1, corr + c, RefineSegment(tbl, ss, more, 0, []))
            else RefineSegment(tbl, ss, more, run + 1, corr + c)
  {
    hide LastNew, Next, Corr, Zeros, Quiet, EobOps, RefineSegment;
    Reach(tbl, ss, zz, ss, 0, [], run, corr, more);
    QuietIsQuiet(zz, ss);
    assert [] + Corr(zz, ss, |zz|) == Corr(zz, ss, |zz|);
  }

  /** A block with a new coefficient ends the run first. */
  lemma LoudBlock(tbl: nat, ss: nat, zz: Zz, more: seq<Zz>, run: nat, corr: seq<bool>)
    requires 1 <= ss < |zz| && !Quiet(zz, ss) && run > 0
    ensures RefineOps(tbl, ss, zz, ss, 0, [], run, corr, more) ==
            EobOps(tbl, run, corr, RefineOps(tbl, ss, zz, ss, 0, [], 0, [], more))
  {
    hide LastNew, Next, Corr, Zeros, Quiet, EobOps, RefineSegment;
    Reach(tbl, ss, zz, ss, 0, [], run, corr, more);
    Reach(tbl, ss, zz, ss, 0, [], 0, [], more);
    LoudStops(zz, ss);
  }

  lemma AllCorrStep(ss: nat, blocks: seq<Zz>, m: nat, corr: seq<bool>)
    requires m <= |blocks|
    ensures m == 0 ==> corr + AllCorr(ss, blocks[..m]) == corr && blocks[m..] == blocks
    ensures m > 0 ==> corr + AllCorr(ss, blocks[..m]) ==
                      corr + Corr(blocks[0], ss, |blocks[0]|) + AllCorr(ss, blocks[1..][..m - 1])
    ensures m > 0 ==> blocks[m..] == blocks[1..][m - 1..]
  {
    if m > 0 {
      assert blocks[..m][1..] == blocks[1..][..m - 1];
    } else {
      assert blocks[..m] == [];
    }
  }

  /** A pending run is written once it is as long as it can get, with all its corrections. */
  lemma {:induction false} RunWritten(tbl: nat, ss: nat, blocks: seq<Zz>, run: nat, corr: seq<bool>)
    requires 1 <= run < MAX_RUN && 1 <= ss && forall b :: b in blocks ==> ss < |b|
    ensures var m := RefineRun(ss, blocks, run, |corr|);
            RefineSegment(tbl, ss, blocks, run, corr) ==
            EobOps(tbl, run + m, corr + AllCorr(ss, blocks[..m]), RefineSegment(tbl, ss, blocks[m..], 0, []))
    decreases |blocks|
  {
    hide LastNew, Next, Corr, Zeros, Quiet, EobOps, AllCorr, RefineOps, RefineSegment, RefineRun;
    RunSteps(tbl, ss, blocks, run, corr);
    if blocks == [] {
      AllCorrStep(ss, blocks, 0, corr);
    } else {
      var zz, more := blocks[0], blocks[1..];
      if Quiet(zz, ss) {
        QuietBlock(tbl, ss, zz, more, run, corr);
        var c := Corr(zz, ss, |zz|);
        if run + 1 == MAX_RUN || |corr + c| > CORR_LIMIT {
          AllCorrStep(ss, blocks, 1, corr);
          AllCorrStep(ss, more, 0, corr + c);
        } else {
          var m := RefineRun(ss, more, run + 1, |corr + c|);
          RunWritten(tbl, ss, more, run + 1, corr + c);
          AllCorrStep(ss, blocks, 1 + m, corr);
        }
      } else {
        LoudBlock(tbl, ss, zz, more, run, corr);
        AllCorrStep(ss, blocks, 0, corr);
      }
    }
  }

  lemma RunSteps(tbl: nat, ss: nat, blocks: seq<Zz>, run: nat, corr: seq<bool>)
    requires run < MAX_RUN
    ensures blocks == [] ==> RefineRun(ss, blocks, run, |corr|) == 0 && RefineSegment(tbl, ss, [], 0, []) == Done
    ensures blocks == [] ==> RefineSegment(tbl, ss, blocks, run, corr) == EobOps(tbl, run, corr, Done)
    ensures blocks != [] ==> RefineSegment(tbl, ss, blocks, run, corr) ==
                             RefineOps(tbl, ss, blocks[0], ss, 0, [], run, corr, blocks[1..])
    ensures blocks != [] ==> RefineSegment(tbl, ss, blocks, 0, []) ==
                             RefineOps(tbl, ss, blocks[0], ss, 0, [], 0, [], blocks[1..])
    ensures blocks != [] ==>
              var c := Corr(blocks[0], ss, |blocks[0]|);
              RefineRun(ss, blocks, run, |corr|) ==
              if !Quiet(blocks[0], ss) then 0
              else if run + 1 == MAX_RUN || |corr + c| > CORR_LIMIT then 1
              else 1 + RefineRun(ss, blocks[1..], run + 1, |corr + c|)
  {
    hide Corr, Quiet, RefineOps;
    if blocks != [] {
      assert |corr + Corr(blocks[0], ss, |blocks[0]|)| == |corr| + |Corr(blocks[0], ss, |blocks[0]|)|;
    }
  }

  lemma QuietIsQuiet(zz: Zz, ss: nat)
    requires 1 <= ss < |zz| && Quiet(zz, ss)
    ensures Next(zz, ss, ss, 0) == |zz| && (Zeros(zz, ss, |zz|) > 0 || Corr(zz, ss, |zz|) != [])
  {
    QuietRuns(zz, ss, ss, 0);
    ZerosOrCorr(zz, ss);
  }

  lemma LoudStops(zz: Zz, ss: nat)
    requires 1 <= ss < |zz| && !Quiet(zz, ss)
    ensures var j := Next(zz, ss, ss, 0);
            j < |zz| && zz[j] != 0 && (Abs(zz[j]) > 1 ==> Zeros(zz, ss, j) > 15 && j <= LastNew(zz, ss, |zz|))
  {
    QuietRuns(zz, ss, ss, 0);
    WhyStopped(zz, ss, ss, 0);
  }

  lemma {:induction false} WhyStopped(zz: Zz, ss: nat, k: nat, r: nat)
    requires ss <= k <= |zz| && Next(zz, ss, k, r) < |zz|
    ensures var j := Next(zz, ss, k, r);
            zz[j] != 0 && (if r + Zeros(zz, k, j) > 15 && j <= LastNew(zz, ss, |zz|) then true else Abs(zz[j]) == 1)
    decreases |zz| - k
  {
    if zz[k] == 0 {
      WhyStopped(zz, ss, k + 1, r + 1);
    } else if !(r > 15 && k <= LastNew(zz, ss, |zz|)) && Abs(zz[k]) > 1 {
      WhyStopped(zz, ss, k + 1, r);
    }
  }

  /** The next symbol of a block from index k on, when no run is pending. */
  lemma RefineHead(tbl: nat, ss: nat, zz: Zz, k: nat, more: seq<Zz>)
    requires 1 <= ss <= k < |zz| && forall b :: b in more ==> ss < |b|
    ensures var j, ops := Next(zz, ss, k, 0), RefineOps(tbl, ss, zz, k, 0, [], 0, [], more);
            var r, c := Zeros(zz, k, j), Corr(zz, k, j);
            if j == |zz| then
              exists m: nat :: m <= |more| && 1 + m <= MAX_RUN && (forall i :: 0 <= i < m ==> Quiet(more[i], ss)) &&
                ops == EobOps(tbl, 1 + m, c + AllCorr(ss, more[..m]), RefineSegment(tbl, ss, more[m..], 0, []))
            else if r > 15 then
              ops == Then(Sym(AcSlot(tbl), ZRL), CorrOps(c, RefineOps(tbl, ss, zz, j, r - 16, [], 0, [], more)))
            else
              && Abs(zz[j]) == 1
              && ops == Then(Sym(AcSlot(tbl), 16 * r + 1), Then(Raw(if zz[j] < 0 then 0 else 1, 1),
                             CorrOps(c, RefineOps(tbl, ss, zz, j + 1, 0, [], 0, [], more))))
  {
    hide LastNew, Next, Corr, Zeros, Quiet, EobOps, CorrOps, AllCorr, RefineSegment;
    var j := Next(zz, ss, k, 0);
    Reach(tbl, ss, zz, k, 0, [], 0, [], more);
    var c := Corr(zz, k, j);
    assert [] + c == c;
    if j == |zz| {
      ZerosOrCorr(zz, k);
      RunWritten(tbl, ss, more, 1, c);
    } else {
      WhyStopped(zz, ss, k, 0);
      StopsEarly(zz, ss, k, 0);
    }
  }
}
