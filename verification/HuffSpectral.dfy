// Spectral selection: the first scan of a band of AC coefficients, with runs of blocks whose rest is zero
// (section G.1.2.2 of T.81).
module HuffSpectral {
  import opened Powers
  import opened Coefs
  import opened HuffCode
  import opened HuffTables
  import opened HuffBits
  import opened HuffBlock

  // An end-of-band run of this length is written at once.
  const MAX_RUN := 0x7FFF

  // ----- the point transform

  /** AC coefficients are divided by 2^al, rounding toward zero. */
  function ShiftDown(v: int, al: nat): int {
    if v < 0 then -(-v / Pow2(al)) else v / Pow2(al)
  }

  /** A coefficient with its low al bits gone. */
  function Truncated(v: int, al: nat): int {
    ShiftDown(v, al) * Pow2(al)
  }

  // ----- ops

  function CorrOps(corr: seq<bool>, next: Ops): Ops {
    if corr == [] then next else Then(Raw(if corr[0] then 1 else 0, 1), CorrOps(corr[1..], next))
  }

  /** A run of run blocks that end their band, with their correction bits; nothing if there is none. */
  function EobOps(tbl: nat, run: nat, corr: seq<bool>, next: Ops): Ops {
    if run == 0 then next
    else
      var n := BitLength(run) - 1;
      var bits := CorrOps(corr, next);
      Then(Sym(AcSlot(tbl), 16 * n), if n == 0 then bits else Then(Raw(run, n), bits))
  }

  /** A block in zigzag order; a first scan codes the indices from ss on of shifted coefficients. */
  type Zz = z: seq<int> | |z| <= 64 witness []

  /** The rest of a segment: blocks to come after run blocks whose end of band is not yet written. */
  ghost function FirstSegment(tbl: nat, ss: nat, blocks: seq<Zz>, run: nat): Ops
    decreases |blocks|, 0, 0, 0, 0
  {
    if blocks == [] then EobOps(tbl, run, [], Done) else FirstOps(tbl, ss, blocks[0], ss, 0, run, blocks[1..])
  }

  /** The rest of block zz from index k on, after r zeros, and of the segment. */
  ghost function FirstOps(tbl: nat, ss: nat, zz: Zz, k: nat, r: nat, run: nat, more: seq<Zz>): Ops
    decreases |more|, 1, if k < |zz| then |zz| - k else 0, r, run
  {
    if k >= |zz| then
      if r == 0 then FirstSegment(tbl, ss, more, run)
      else if run + 1 == MAX_RUN then EobOps(tbl, run + 1, [], FirstSegment(tbl, ss, more, 0))
      else FirstSegment(tbl, ss, more, run + 1)
    else if zz[k] == 0 then FirstOps(tbl, ss, zz, k + 1, r + 1, run, more)
    else if run > 0 then EobOps(tbl, run, [], FirstOps(tbl, ss, zz, k, r, 0, more))
    else if r > 15 then Then(Sym(AcSlot(tbl), ZRL), FirstOps(tbl, ss, zz, k, r - 16, 0, more))
    else
      Then(Sym(AcSlot(tbl), 16 * r + BitLength(Abs(zz[k]))), ValueOps(zz[k], FirstOps(tbl, ss, zz, k + 1, 0, 0, more)))
  }

  // ----- the structure of runs

  lemma {:induction false} FirstSkipZeros(tbl: nat, ss: nat, zz: Zz, k: nat, j: nat, r: nat, run: nat, more: seq<Zz>)
    requires k <= j <= |zz| && forall i :: k <= i < j ==> zz[i] == 0
    ensures FirstOps(tbl, ss, zz, k, r, run, more) == FirstOps(tbl, ss, zz, j, r + (j - k), run, more)
    decreases j - k
  {
    if k < j {
      FirstSkipZeros(tbl, ss, zz, k + 1, j, r + 1, run, more);
    }
  }

  predicate ZeroBand(zz: Zz, ss: nat) {
    forall i :: ss <= i < |zz| ==> zz[i] == 0
  }

  /** How many of the blocks to come join a run of run blocks. */
  ghost function RunLength(ss: nat, blocks: seq<Zz>, run: nat): (m: nat)
    requires run <= MAX_RUN
    ensures m <= |blocks| && run + m <= MAX_RUN && forall j :: 0 <= j < m ==> ZeroBand(blocks[j], ss)
  {
    if blocks == [] || !ZeroBand(blocks[0], ss) || run == MAX_RUN then 0 else 1 + RunLength(ss, blocks[1..], run + 1)
  }

  /** A pending run is written once it is as long as it can get, before anything else. */
  lemma {:induction false} FirstRun(tbl: nat, ss: nat, blocks: seq<Zz>, run: nat)
    requires 1 <= run < MAX_RUN && forall b :: b in blocks ==> ss < |b|
    ensures FirstSegment(tbl, ss, blocks, run) ==
            EobOps(tbl, run + RunLength(ss, blocks, run), [], FirstSegment(tbl, ss, blocks[RunLength(ss, blocks,
                run)..], 0))
    decreases |blocks|
  {
    if blocks == [] {
      assert EobOps(tbl, 0, [], Done) == Done;
    } else {
      var zz, more := blocks[0], blocks[1..];
      var j := NextNonzero(zz, ss);
      FirstSkipZeros(tbl, ss, zz, ss, j, 0, run, more);
      if ZeroBand(zz, ss) {
        assert blocks[1 + RunLength(ss, more, run + 1)..] == more[RunLength(ss, more, run + 1)..];
        if run + 1 == MAX_RUN {
          assert more[0..] == more && RunLength(ss, more, run + 1) == 0;
        } else {
          FirstRun(tbl, ss, more, run + 1);
        }
      } else {
        FirstSkipZeros(tbl, ss, zz, ss, j, 0, 0, more);
        assert blocks[0..] == blocks;
      }
    }
  }

  /** The next symbol of a block from index k on, when no run is pending. */
  lemma FirstHead(tbl: nat, ss: nat, zz: Zz, k: nat, more: seq<Zz>)
    requires k < |zz| && forall b :: b in more ==> ss < |b|
    ensures var j, ops, m := NextNonzero(zz, k), FirstOps(tbl, ss, zz, k, 0, 0, more), RunLength(ss, more, 1);
            if j == |zz| then ops == EobOps(tbl, 1 + m, [], FirstSegment(tbl, ss, more[m..], 0))
            else if j - k > 15 then ops == Then(Sym(AcSlot(tbl), ZRL), FirstOps(tbl, ss, zz, k + 16, 0, 0, more))
            else ops == Then(Sym(AcSlot(tbl), 16 * (j - k) + BitLength(Abs(zz[j]))),
                             ValueOps(zz[j], FirstOps(tbl, ss, zz, j + 1, 0, 0, more)))
  {
    var j := NextNonzero(zz, k);
    FirstSkipZeros(tbl, ss, zz, k, j, 0, 0, more);
    if j == |zz| {
      FirstRun(tbl, ss, more, 1);
    } else if j - k > 15 {
      FirstSkipZeros(tbl, ss, zz, k + 16, j, 0, 0, more);
    }
  }

  // ----- decoding any bit string

  /** A block, the bits left, and the blocks of the run still to come. */
  datatype FirstResult = FirstResult(b: Block, s: seq<bool>, run: nat)

  /** The run an EOB symbol with r starts. */
  function RunAt(s: seq<bool>, r: nat): nat {
    Pow2(r) + Peek(s, r)
  }

  function FirstDecode(t: HuffTbl, order: seq<nat>, s: seq<bool>, b: Block, k: nat, se: nat, al: nat): FirstResult
    requires Legal(t.bits) && |order| == 64 && forall i :: 0 <= i < 64 ==> order[i] < 64
    decreases se + 1 - k
  {
    if k > se then FirstResult(b, s, 0)
    else
      var sym, s1 := SymAt(t, s), AfterSym(t, s);
      var r, size := RunOf(sym), SizeOf(sym);
      if size != 0 then
        FirstDecode(t, order, Rest(s1, size), b[At(order, k + r) := ToCoef(ValueAt(s1, size) * Pow2(al))], k + r + 1,
            se, al)
      else if r == 15 then FirstDecode(t, order, s1, b, k + 16, se, al)
      else FirstResult(b, Rest(s1, r), RunAt(s1, r) - 1)
  }

  lemma FirstDecodeStep(t: HuffTbl, order: seq<nat>, s: seq<bool>, b: Block, k: nat, se: nat, al: nat)
    requires Legal(t.bits) && |order| == 64 && forall i :: 0 <= i < 64 ==> order[i] < 64
    ensures k > se ==> FirstDecode(t, order, s, b, k, se, al) == FirstResult(b, s, 0)
    ensures k <= se && SymAt(t, s) == ZRL ==>
              FirstDecode(t, order, s, b, k, se, al) == FirstDecode(t, order, AfterSym(t, s), b, k + 16, se, al)
    ensures k <= se && SizeOf(SymAt(t, s)) == 0 && RunOf(SymAt(t, s)) < 15 ==>
              var r := RunOf(SymAt(t, s));
              FirstDecode(t, order, s, b, k, se, al) == FirstResult(b, Rest(AfterSym(t, s), r), RunAt(AfterSym(t, s),
                  r) - 1)
    ensures k <= se && SizeOf(SymAt(t, s)) != 0 ==>
              var r, size := RunOf(SymAt(t, s)), SizeOf(SymAt(t, s));
              var v := ValueAt(AfterSym(t, s), size);
              FirstDecode(t, order, s, b, k, se, al) ==
              FirstDecode(t, order, Rest(AfterSym(t, s), size), b[At(order, k + r) := ToCoef(v * Pow2(al))],
                  k + r + 1, se, al)
  {
    hide SymAt, AfterSym, Legal, ValueAt, ToCoef, RunAt, Pow2;
  }

  // ----- what was coded is decoded

  /** The run length is read back. */
  lemma RunDecodes(ts: Tables, tbl: nat, run: nat, corr: seq<bool>, next: Ops, tail: seq<bool>)
    requires 1 <= run <= MAX_RUN && tbl < NUM_HUFF_TBLS && Legal(ts[AcSlot(tbl)].bits)
    requires Covered(ts, EobOps(tbl, run, corr, next))
    ensures var t, s := ts[AcSlot(tbl)], BitsFrom(ts, EobOps(tbl, run, corr, next), tail);
            var r := RunOf(SymAt(t, s));
            && r <= 14 && SizeOf(SymAt(t, s)) == 0 && RunAt(AfterSym(t, s), r) == run
            && Rest(AfterSym(t, s), r) == BitsFrom(ts, CorrOps(corr, next), tail) && Covered(ts, CorrOps(corr, next))
  {
    hide SymAt, AfterSym, HasCode, Legal, BitLength, CorrOps, OpBits, Pow2, Peek;
    var n := BitLength(run) - 1;
    BitLengthBounds(run);
    Pow2Values();
    BitLengthIs(run, 15);
    var more := CorrOps(corr, next);
    var rest := if n == 0 then more else Then(Raw(run, n), more);
    CoveredThen(ts, AcSlot(tbl), 16 * n, rest);
    SymbolDecodes(ts, AcSlot(tbl), 16 * n, rest, tail);
    if n > 0 {
      RawBits(ts, run, n);
      PeekNum(run, n, BitsFrom(ts, more, tail));
    } else {
      NoBits(BitsFrom(ts, more, tail));
    }
    LeadingBit(run, n);
  }

  lemma {:induction false} CoveredCorr(ts: Tables, c: seq<bool>, next: Ops)
    ensures Covered(ts, CorrOps(c, next)) == Covered(ts, next)
  {
    if c != [] {
      CoveredCorr(ts, c[1..], next);
    }
  }

  lemma RawBits(ts: Tables, v: int, n: nat)
    ensures OpBits(ts, Raw(v, n)) == NumBits(v, n)
  {
  }

  lemma EmptyCorr(next: Ops)
    ensures CorrOps([], next) == next
  {
  }

  lemma NothingLeft(tbl: nat, ss: nat, zz: Zz, more: seq<Zz>)
    ensures FirstOps(tbl, ss, zz, |zz|, 0, 0, more) == FirstSegment(tbl, ss, more, 0)
  {
  }

  lemma NoBits(s: seq<bool>)
    ensures Peek(s, 0) == 0 && Rest(s, 0) == s
  {
  }

  lemma LeadingBit(run: nat, n: nat)
    requires Pow2(n) <= run < Pow2(n + 1)
    ensures Pow2(n) + run % Pow2(n) == run
  {
    DivModUnique(run, Pow2(n), 1, run - Pow2(n));
  }

  /** Between blocks: run blocks with a zero band are still to be skipped, and then s goes on with the
      ops of the rest. */
  ghost predicate FirstStands(ts: Tables, tbl: nat, ss: nat, blocks: seq<Zz>, run: nat, s: seq<bool>, tail: seq<bool>) {
    && run <= |blocks| && (forall j :: 0 <= j < run ==> ZeroBand(blocks[j], ss))
    && s == BitsFrom(ts, FirstSegment(tbl, ss, blocks[run..], 0), tail)
    && Covered(ts, FirstSegment(tbl, ss, blocks[run..], 0))
  }

  /** The band of b holds 2^al times zz up to index k, and zeros from there on. */
  ghost predicate Banded(b: Block, order: seq<nat>, zz: Zz, ss: nat, k: nat, al: nat)
    requires IsOrder(order)
  {
    forall i :: ss <= i < |zz| ==> b[order[i]] == if i < k then zz[i] * Pow2(al) else 0
  }

  ghost predicate Fits(zz: Zz, ss: nat, al: nat) {
    && ss < |zz| && AcInRange(zz, ss)
    && forall i :: ss <= i < |zz| ==> -0x8000 <= zz[i] * Pow2(al) < 0x8000
  }

  lemma BandedTo(b: Block, order: seq<nat>, zz: Zz, ss: nat, k: nat, j: nat, al: nat)
    requires IsOrder(order) && Fits(zz, ss, al) && Banded(b, order, zz, ss, k, al)
    requires ss <= k <= j <= |zz| && forall i :: k <= i < j ==> zz[i] == 0
    ensures Banded(b, order, zz, ss, j, al)
    ensures j < |zz| ==> zz[j] * Pow2(al) == ToCoef(zz[j] * Pow2(al))
    ensures j < |zz| ==> Banded(b[order[j] := ToCoef(zz[j] * Pow2(al))], order, zz, ss, j + 1, al)
  {
    hide Pow2;
  }

  lemma {:induction false} FirstDecodes(ts: Tables, tbl: nat, order: seq<nat>, ss: nat, zz: Zz, b: Block, k: nat,
                                        al: nat,
                                        more: seq<Zz>, tail: seq<bool>)
    requires tbl < NUM_HUFF_TBLS && Legal(ts[AcSlot(tbl)].bits) && IsOrder(order)
    requires ss <= k <= |zz| && Fits(zz, ss, al) && Banded(b, order, zz, ss, k, al)
    requires forall z :: z in more ==> ss < |z|
    requires Covered(ts, FirstOps(tbl, ss, zz, k, 0, 0, more))
    ensures var d := FirstDecode(ts[AcSlot(tbl)], order, BitsFrom(ts, FirstOps(tbl, ss, zz, k, 0, 0, more), tail), b,
            k, |zz| - 1, al);
            && Banded(d.b, order, zz, ss, |zz|, al) && FirstStands(ts, tbl, ss, more, d.run, d.s, tail)
            && forall i :: 0 <= i < 64 && (i < ss || i >= |zz|) ==> d.b[order[i]] == b[order[i]]
    decreases |zz| - k
  {
    hide BitsFrom, SymAt, AfterSym, HasCode, Legal, Rest, BitLength, FirstOps, FirstSegment, EobOps, Covered, ValueOps,
         Banded, ToCoef, ValueAt, RunAt, FirstDecode, RunOf, SizeOf, Pow2, CorrOps;
    var t, s := ts[AcSlot(tbl)], BitsFrom(ts, FirstOps(tbl, ss, zz, k, 0, 0, more), tail);
    FirstDecodeStep(t, order, s, b, k, |zz| - 1, al);
    if k == |zz| {
      NothingLeft(tbl, ss, zz, more);
      assert more[0..] == more;
    } else {
      FirstHead(tbl, ss, zz, k, more);
      var j := NextNonzero(zz, k);
      var slot := AcSlot(tbl);
      BandedTo(b, order, zz, ss, k, j, al);
      if j == |zz| {
        var m := RunLength(ss, more, 1);
        RunDecodes(ts, tbl, 1 + m, [], FirstSegment(tbl, ss, more[m..], 0), tail);
        EmptyCorr(FirstSegment(tbl, ss, more[m..], 0));
      } else if j - k > 15 {
        var rest := FirstOps(tbl, ss, zz, k + 16, 0, 0, more);
        BandedTo(b, order, zz, ss, k, k + 16, al);
        CoveredThen(ts, slot, ZRL, rest);
        SymbolDecodes(ts, slot, ZRL, rest, tail);
        FirstDecodes(ts, tbl, order, ss, zz, b, k + 16, al, more, tail);
      } else {
        var rest := FirstOps(tbl, ss, zz, j + 1, 0, 0, more);
        CodedSymbol(j - k, zz[j]);
        CoveredThen(ts, slot, 16 * (j - k) + BitLength(Abs(zz[j])), ValueOps(zz[j], rest));
        CoveredValue(ts, zz[j], rest);
        SymbolDecodes(ts, slot, 16 * (j - k) + BitLength(Abs(zz[j])), ValueOps(zz[j], rest), tail);
        ValueDecodes(ts, zz[j], rest, tail);
        FirstDecodes(ts, tbl, order, ss, zz, b[order[j] := ToCoef(zz[j] * Pow2(al))], j + 1, al, more, tail);
      }
    }
  }

  /** One block of a first scan: the decoder recovers its band and stands before the next block. */
  lemma FirstBlock(ts: Tables, tbl: nat, order: seq<nat>, ss: nat, al: nat, blocks: seq<Zz>, run: nat, s: seq<bool>,
                   tail: seq<bool>, b: Block)
    requires tbl < NUM_HUFF_TBLS && Legal(ts[AcSlot(tbl)].bits) && IsOrder(order)
    requires blocks != [] && FirstStands(ts, tbl, ss, blocks, run, s, tail)
    requires Fits(blocks[0], ss, al) && forall z :: z in blocks ==> ss < |z|
    requires Banded(b, order, blocks[0], ss, ss, al)
    ensures run > 0 ==> Banded(b, order, blocks[0], ss, |blocks[0]|, al) && FirstStands(ts, tbl, ss, blocks[1..], run - 1, s, tail)
    ensures run == 0 ==> var d := FirstDecode(ts[AcSlot(tbl)], order, s, b, ss, |blocks[0]| - 1, al);
                         && Banded(d.b, order, blocks[0], ss, |blocks[0]|, al) &&
                             FirstStands(ts, tbl, ss, blocks[1..], d.run, d.s, tail)
                         && forall i :: 0 <= i < 64 && (i < ss || i >= |blocks[0]|) ==> d.b[order[i]] == b[order[i]]
  {
    hide BitsFrom, Legal, FirstOps, Covered, FirstDecode, AcInRange;
    if run > 0 {
      assert blocks[1..][run - 1..] == blocks[run..];
      assert ZeroBand(blocks[0], ss);
    } else {
      assert blocks[0..] == blocks;
      FirstDecodes(ts, tbl, order, ss, blocks[0], b, ss, al, blocks[1..], tail);
    }
  }
}
