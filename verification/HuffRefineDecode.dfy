// Decoding a refinement scan: what a decoder makes of any bit string, that it inverts the encoder, and
// that a block left half done by a suspension decodes to the same result.
module HuffRefineDecode {
  import opened Powers
  import opened Coefs
  import opened HuffCode
  import opened HuffTables
  import opened HuffBits
  import opened HuffBlock
  import opened HuffSpectral
  import opened HuffRefine

  // ----- decoding any bit string

  predicate IsMap(order: seq<nat>) {
    |order| == 64 && forall i :: 0 <= i < 64 ==> order[i] < 64
  }

  /** Append a correction bit to a nonzero coefficient, unless its bit al is set already. */
  function Correct(c: JCOEF, bit: nat, al: nat): JCOEF {
    CorrectBy(c, bit, Pow2(al))
  }

  function CorrectBy(c: JCOEF, bit: nat, p: nat): JCOEF
    requires p > 0
  {
    if bit == 1 && c / p % 2 == 0 then ToCoef(if c >= 0 then c + p else c - p) else c
  }

  datatype Advanced = Advanced(b: Block, s: seq<bool>, k: nat)

  /** Move over nonzero coefficients, correcting them, and r zeros, up to the next zero or past se. */
  function Advance(order: seq<nat>, s: seq<bool>, b: Block, k: nat, r: nat, se: nat, al: nat): (a: Advanced)
    requires IsMap(order) && se < 64
    ensures a.k >= k
    decreases if k <= se then se - k + 1 else 0
  {
    if k > se then Advanced(b, s, k)
    else
      var p := order[k];
      if b[p] != 0 then Advance(order, Rest(s, 1), b[p := Correct(b[p], Peek(s, 1), al)], k + 1, r, se, al)
      else if r == 0 then Advanced(b, s, k)
      else Advance(order, s, b, k + 1, r - 1, se, al)
  }

  /** Correct the nonzero coefficients of the rest of the band. */
  function Corrections(order: seq<nat>, s: seq<bool>, b: Block, k: nat, se: nat, al: nat): Decoded
    requires IsMap(order) && se < 64
    decreases if k <= se then se - k + 1 else 0
  {
    if k > se then Decoded(b, s)
    else
      var p := order[k];
      if b[p] != 0 then Corrections(order, Rest(s, 1), b[p := Correct(b[p], Peek(s, 1), al)], k + 1, se, al)
      else Corrections(order, s, b, k + 1, se, al)
  }

  /** A block, the bits left, the blocks of a run still to come, and, for a run that leads past the
      band, the value meant for the index after it (0 if there is none). */
  datatype RefineResult = RefineResult(b: Block, s: seq<bool>, run: nat, stray: int)

  function NewValue(s: seq<bool>, al: nat): int {
    var p: int := Pow2(al);
    if Peek(s, 1) == 1 then p else -p
  }

  function RefineDecode(t: HuffTbl, order: seq<nat>, s: seq<bool>, b: Block, k: nat, se: nat, al: nat): RefineResult
    requires Legal(t.bits) && IsMap(order) && se < 64
    decreases if k <= se then se - k + 1 else 0
  {
    if k > se then RefineResult(b, s, 0, 0)
    else
      var sym, s1 := SymAt(t, s), AfterSym(t, s);
      var r, size := RunOf(sym), SizeOf(sym);
      if size != 0 then
        var a := Advance(order, Rest(s1, 1), b, k, r, se, al);
        if a.k > se then RefineResult(a.b, a.s, 0, NewValue(s1, al))
        else RefineDecode(t, order, a.s, a.b[order[a.k] := ToCoef(NewValue(s1, al))], a.k + 1, se, al)
      else if r == 15 then
        var a := Advance(order, s1, b, k, 15, se, al);
        RefineDecode(t, order, a.s, a.b, a.k + 1, se, al)
      else
        var c := Corrections(order, Rest(s1, r), b, k, se, al);
        RefineResult(c.b, c.s, RunAt(s1, r) - 1, 0)
  }

  // ----- the decoder inverts the encoder

  /** What is known of a coefficient before the scan: all its bits but the last. */
  function Held(v: int, al: nat): int {
    ShiftDown(v, 1) * Pow2(al + 1)
  }

  ghost predicate RefineFits(zz: Zz, ss: nat, al: nat) {
    1 <= ss < |zz| && forall i :: ss <= i < |zz| ==> -0x8000 <= zz[i] * Pow2(al) < 0x8000
  }

  /** The band of b is refined up to index k and held from there on. */
  ghost predicate Half(b: Block, order: seq<nat>, zz: Zz, ss: nat, k: nat, al: nat)
    requires IsOrder(order)
  {
    forall i :: ss <= i < |zz| ==> b[order[i]] == if i < k then zz[i] * Pow2(al) else Held(zz[i], al)
  }

  lemma HeldFacts(v: int, al: nat)
    requires -0x8000 <= v * Pow2(al) < 0x8000
    ensures -0x8000 <= Held(v, al) < 0x8000 && (Held(v, al) != 0 <==> Abs(v) > 1)
    ensures Abs(v) > 1 ==> Correct(Held(v, al), if Odd(v) then 1 else 0, al) == v * Pow2(al)
    ensures v == 0 ==> Held(v, al) == 0 == v * Pow2(al)
  {
    assert Pow2(1) == 2;
    HeldArith(v, Pow2(al));
  }

  lemma HeldArith(v: int, p: nat)
    requires p > 0 && -0x8000 <= v * p < 0x8000
    ensures var h := (if v < 0 then -(-v / 2) else v / 2) * (2 * p);
            && -0x8000 <= h < 0x8000 && (h != 0 <==> v > 1 || v < -1) && h / p % 2 == 0
            && (h > 0 <==> v > 1) && v * p == (if v % 2 == 0 then h else if v > 0 then h + p else h - p)
  {
    var q := if v < 0 then -(-v / 2) else v / 2;
    var h := q * (2 * p);
    MulAssociate(q, 2, p);
    MulAssociateLeft(2, q, p);
    assert h == (2 * q) * p;
    DivModUnique(h, p, 2 * q, 0);
    MulAdd(2 * q, 1, p);
    MulAdd(2 * q, -1, p);
    if v >= 0 {
      MulMonotone(0, 2 * q, p);
      MulMonotone(2 * q, v, p);
      if q > 0 {
        MulMonotone(1, 2 * q, p);
      }
    } else {
      MulMonotone(2 * q, 0, p);
      MulMonotone(v, 2 * q, p);
      if q < 0 {
        MulMonotone(2 * q, -1, p);
      }
    }
  }

  lemma CorrBit(ts: Tables, corr: seq<bool>, next: Ops, tail: seq<bool>)
    requires corr != []
    ensures var s := BitsFrom(ts, CorrOps(corr, next), tail);
            Peek(s, 1) == (if corr[0] then 1 else 0) && Rest(s, 1) == BitsFrom(ts, CorrOps(corr[1..], next), tail)
    ensures Covered(ts, CorrOps(corr, next)) == Covered(ts, CorrOps(corr[1..], next))
  {
    var v := if corr[0] then 1 else 0;
    PeekNum(v, 1, BitsFrom(ts, CorrOps(corr[1..], next), tail));
    assert Pow2(1) == 2;
  }

  lemma {:induction false} CorrConcat(c: seq<bool>, d: seq<bool>, next: Ops)
    ensures CorrOps(c + d, next) == CorrOps(c, CorrOps(d, next))
  {
    if c == [] {
      assert c + d == d;
    } else {
      assert (c + d)[1..] == c[1..] + d;
      CorrConcat(c[1..], d, next);
    }
  }

  lemma HalfStep(b: Block, order: seq<nat>, zz: Zz, ss: nat, k: nat, al: nat)
    requires IsOrder(order) && RefineFits(zz, ss, al) && ss <= k < |zz| && Half(b, order, zz, ss, k, al)
    ensures b[order[k]] != 0 <==> Abs(zz[k]) > 1
    ensures zz[k] == 0 ==> Half(b, order, zz, ss, k + 1, al)
    ensures Abs(zz[k]) > 1 ==>
              Half(b[order[k] := Correct(b[order[k]], if Odd(zz[k]) then 1 else 0, al)], order, zz, ss, k + 1, al)
    ensures Abs(zz[k]) == 1 ==> Half(b[order[k] := ToCoef(zz[k] * Pow2(al))], order, zz, ss, k + 1, al)
  {
    hide Held, Correct, Pow2;
    HeldFacts(zz[k], al);
  }

  /** Moving over a stretch without new coefficients reads its corrections. */
  lemma {:induction false} AdvanceDecodes(ts: Tables, order: seq<nat>, zz: Zz, ss: nat, b: Block, k: nat, j: nat,
                                          r: nat,
                                          al: nat, next: Ops, tail: seq<bool>)
    requires IsOrder(order) && RefineFits(zz, ss, al) && ss <= k <= j < |zz| && Half(b, order, zz, ss, k, al)
    requires (forall i :: k <= i < j ==> Abs(zz[i]) != 1) && Abs(zz[j]) <= 1 && Zeros(zz, k, j) == r
    ensures var a := Advance(order, BitsFrom(ts, CorrOps(Corr(zz, k, j), next), tail), b, k, r, |zz| - 1, al);
            a.k == j && a.s == BitsFrom(ts, next, tail) && Half(a.b, order, zz, ss, j, al)
    decreases j - k
  {
    hide Half, Correct, Peek, Rest, BitsFrom;
    HalfStep(b, order, zz, ss, k, al);
    if k < j {
      var corr := Corr(zz, k, j);
      if zz[k] == 0 {
        AdvanceDecodes(ts, order, zz, ss, b, k + 1, j, r - 1, al, next, tail);
      } else {
        CorrBit(ts, corr, next, tail);
        assert corr[1..] == Corr(zz, k + 1, j);
        var b' := b[order[k] := Correct(b[order[k]], if Odd(zz[k]) then 1 else 0, al)];
        AdvanceDecodes(ts, order, zz, ss, b', k + 1, j, r, al, next, tail);
      }
    }
  }

  /** The corrections of the rest of a band without new coefficients. */
  lemma {:induction false} CorrectionsDecode(ts: Tables, order: seq<nat>, zz: Zz, ss: nat, b: Block, k: nat, al: nat,
                                             next: Ops, tail: seq<bool>)
    requires IsOrder(order) && RefineFits(zz, ss, al) && ss <= k <= |zz| && Half(b, order, zz, ss, k, al)
    requires forall i :: k <= i < |zz| ==> Abs(zz[i]) != 1
    ensures var d := Corrections(order, BitsFrom(ts, CorrOps(Corr(zz, k, |zz|), next), tail), b, k, |zz| - 1, al);
            d.s == BitsFrom(ts, next, tail) && Half(d.b, order, zz, ss, |zz|, al)
    decreases |zz| - k
  {
    hide Half, Correct, Peek, Rest, BitsFrom;
    if k < |zz| {
      HalfStep(b, order, zz, ss, k, al);
      var corr := Corr(zz, k, |zz|);
      if zz[k] == 0 {
        CorrectionsDecode(ts, order, zz, ss, b, k + 1, al, next, tail);
      } else {
        CorrBit(ts, corr, next, tail);
        assert corr[1..] == Corr(zz, k + 1, |zz|);
        var b' := b[order[k] := Correct(b[order[k]], if Odd(zz[k]) then 1 else 0, al)];
        CorrectionsDecode(ts, order, zz, ss, b', k + 1, al, next, tail);
      }
    }
  }

  /** Between blocks: run blocks with corrections only are still to come, their corrections first in s. */
  ghost predicate RefineStands(ts: Tables, tbl: nat, ss: nat, blocks: seq<Zz>, run: nat, s: seq<bool>,
                               tail: seq<bool>) {
    && run <= |blocks| && (forall j :: 0 <= j < run ==> Quiet(blocks[j], ss))
    && s == BitsFrom(ts, CorrOps(AllCorr(ss, blocks[..run]), RefineSegment(tbl, ss, blocks[run..], 0, [])), tail)
    && Covered(ts, RefineSegment(tbl, ss, blocks[run..], 0, []))
  }

  // One step of the decoder for each kind of symbol.
  lemma RefineStep(t: HuffTbl, order: seq<nat>, s: seq<bool>, b: Block, k: nat, se: nat, al: nat)
    requires Legal(t.bits) && IsMap(order) && se < 64
    ensures k > se ==> RefineDecode(t, order, s, b, k, se, al) == RefineResult(b, s, 0, 0)
    ensures k <= se && SymAt(t, s) == ZRL ==>
              var a := Advance(order, AfterSym(t, s), b, k, 15, se, al);
              RefineDecode(t, order, s, b, k, se, al) == RefineDecode(t, order, a.s, a.b, a.k + 1, se, al)
    ensures k <= se && SizeOf(SymAt(t, s)) == 0 && RunOf(SymAt(t, s)) < 15 ==>
              var r, s1 := RunOf(SymAt(t, s)), AfterSym(t, s);
              var c := Corrections(order, Rest(s1, r), b, k, se, al);
              RefineDecode(t, order, s, b, k, se, al) == RefineResult(c.b, c.s, RunAt(s1, r) - 1, 0)
    ensures k <= se && SizeOf(SymAt(t, s)) != 0 ==>
              var s1 := AfterSym(t, s);
              var a := Advance(order, Rest(s1, 1), b, k, RunOf(SymAt(t, s)), se, al);
              RefineDecode(t, order, s, b, k, se, al) ==
              if a.k > se then RefineResult(a.b, a.s, 0, NewValue(s1, al))
              else RefineDecode(t, order, a.s, a.b[order[a.k] := ToCoef(NewValue(s1, al))], a.k + 1, se, al)
  {
    hide SymAt, AfterSym, Legal, NewValue, ToCoef, RunAt, Pow2, Rest;
  }

  lemma SignDecodes(ts: Tables, v: int, al: nat, next: Ops, tail: seq<bool>)
    requires Abs(v) == 1
    ensures var s := BitsFrom(ts, Then(Raw(if v < 0 then 0 else 1, 1), next), tail);
            NewValue(s, al) == v * Pow2(al) && Rest(s, 1) == BitsFrom(ts, next, tail)
  {
    PeekNum(if v < 0 then 0 else 1, 1, BitsFrom(ts, next, tail));
    assert Pow2(1) == 2;
  }

  lemma CoveredNew(ts: Tables, bit: int, c: seq<bool>, next: Ops)
    ensures Covered(ts, Then(Raw(bit, 1), CorrOps(c, next))) == Covered(ts, next)
  {
    CoveredCorr(ts, c, next);
  }

  lemma SymbolParts(r: nat)
    requires r <= 15
    ensures RunOf(16 * r + 1) == r && SizeOf(16 * r + 1) == 1
    ensures RunOf(ZRL) == 15 && SizeOf(ZRL) == 0
  {
  }

  lemma {:induction false} RefineDecodes(ts: Tables, tbl: nat, order: seq<nat>, ss: nat, zz: Zz, b: Block, k: nat,
                                         al: nat,
                                         more: seq<Zz>, tail: seq<bool>)
    requires tbl < NUM_HUFF_TBLS && Legal(ts[AcSlot(tbl)].bits) && IsOrder(order)
    requires RefineFits(zz, ss, al) && ss <= k <= |zz| && Half(b, order, zz, ss, k, al)
    requires forall z :: z in more ==> ss < |z|
    requires Covered(ts, RefineOps(tbl, ss, zz, k, 0, [], 0, [], more))
    ensures var d := RefineDecode(ts[AcSlot(tbl)], order, BitsFrom(ts, RefineOps(tbl, ss, zz, k, 0, [], 0, [], more),
            tail),
                                  b, k, |zz| - 1, al);
            Half(d.b, order, zz, ss, |zz|, al) && d.stray == 0 && RefineStands(ts, tbl, ss, more, d.run, d.s, tail)
    decreases |zz| - k
  {
    hide BitsFrom, SymAt, AfterSym, HasCode, Legal, Rest, RefineOps, RefineSegment, EobOps, Covered, Half, ToCoef,
         RunAt,
         RefineDecode, RunOf, SizeOf, Pow2, CorrOps, Advance, Corrections, NewValue, Next, Zeros, Corr, LastNew,
             AllCorr, Quiet;
    var t, s := ts[AcSlot(tbl)], BitsFrom(ts, RefineOps(tbl, ss, zz, k, 0, [], 0, [], more), tail);
    RefineStep(t, order, s, b, k, |zz| - 1, al);
    if k == |zz| {
      NothingPending(ts, tbl, ss, zz, more, tail);
    } else {
      RefineHead(tbl, ss, zz, k, more);
      var j := Next(zz, ss, k, 0);
      var r, c := Zeros(zz, k, j), Corr(zz, k, j);
      var slot := AcSlot(tbl);
      if j == |zz| {
        var m: nat :| m <= |more| && 1 + m <= MAX_RUN && (forall i :: 0 <= i < m ==> Quiet(more[i], ss)) &&
          RefineOps(tbl, ss, zz, k, 0, [], 0, [], more) ==
          EobOps(tbl, 1 + m, c + AllCorr(ss, more[..m]), RefineSegment(tbl, ss, more[m..], 0, []));
        var rest := RefineSegment(tbl, ss, more[m..], 0, []);
        RunDecodes(ts, tbl, 1 + m, c + AllCorr(ss, more[..m]), rest, tail);
        CorrConcat(c, AllCorr(ss, more[..m]), rest);
        CoveredCorr(ts, c, CorrOps(AllCorr(ss, more[..m]), rest));
        CoveredCorr(ts, AllCorr(ss, more[..m]), rest);
        CorrectionsDecode(ts, order, zz, ss, b, k, al, CorrOps(AllCorr(ss, more[..m]), rest), tail);
      } else if r > 15 {
        var rest := RefineOps(tbl, ss, zz, j, r - 16, [], 0, [], more);
        SymbolParts(15);
        CoveredThen(ts, slot, ZRL, CorrOps(c, rest));
        CoveredCorr(ts, c, rest);
        SymbolDecodes(ts, slot, ZRL, CorrOps(c, rest), tail);
        var m := Sixteenth(zz, ss, k, 0);
        AdvanceDecodes(ts, order, zz, ss, b, k, m, 15, al, rest, tail);
        RefineSkipZeros(tbl, ss, zz, m + 1, j, 0, [], more);
        var a := Advance(order, AfterSym(t, s), b, k, 15, |zz| - 1, al);
        HalfStep(a.b, order, zz, ss, m, al);
        RefineDecodes(ts, tbl, order, ss, zz, a.b, m + 1, al, more, tail);
      } else {
        var rest := RefineOps(tbl, ss, zz, j + 1, 0, [], 0, [], more);
        var bit := if zz[j] < 0 then 0 else 1;
        SymbolParts(r);
        CoveredThen(ts, slot, 16 * r + 1, Then(Raw(bit, 1), CorrOps(c, rest)));
        CoveredNew(ts, bit, c, rest);
        SymbolDecodes(ts, slot, 16 * r + 1, Then(Raw(bit, 1), CorrOps(c, rest)), tail);
        SignDecodes(ts, zz[j], al, CorrOps(c, rest), tail);
        AdvanceDecodes(ts, order, zz, ss, b, k, j, r, al, rest, tail);
        var a := Advance(order, Rest(AfterSym(t, s), 1), b, k, r, |zz| - 1, al);
        HalfStep(a.b, order, zz, ss, j, al);
        RefineDecodes(ts, tbl, order, ss, zz, a.b[order[j] := ToCoef(zz[j] * Pow2(al))], j + 1, al, more, tail);
      }
    }
  }

  lemma NothingPending(ts: Tables, tbl: nat, ss: nat, zz: Zz, more: seq<Zz>, tail: seq<bool>)
    requires Covered(ts, RefineOps(tbl, ss, zz, |zz|, 0, [], 0, [], more))
    ensures RefineStands(ts, tbl, ss, more, 0, BitsFrom(ts, RefineOps(tbl, ss, zz, |zz|, 0, [], 0, [], more), tail),
            tail)
  {
    assert more[0..] == more && more[..0] == [];
    assert CorrOps([], RefineSegment(tbl, ss, more, 0, [])) == RefineSegment(tbl, ss, more, 0, []);
  }

  /** One block of a refinement scan: the decoder adds the bit to every coefficient of the band and
      stands before the next block. */
  lemma RefineBlock(ts: Tables, tbl: nat, order: seq<nat>, ss: nat, al: nat, blocks: seq<Zz>, run: nat, s: seq<bool>,
                    tail: seq<bool>, b: Block)
    requires tbl < NUM_HUFF_TBLS && Legal(ts[AcSlot(tbl)].bits) && IsOrder(order)
    requires blocks != [] && RefineStands(ts, tbl, ss, blocks, run, s, tail)
    requires RefineFits(blocks[0], ss, al) && forall z :: z in blocks ==> ss < |z|
    requires Half(b, order, blocks[0], ss, ss, al)
    ensures run > 0 ==> var d := Corrections(order, s, b, ss, |blocks[0]| - 1, al);
                        Half(d.b, order, blocks[0], ss, |blocks[0]|, al) &&
                            RefineStands(ts, tbl, ss, blocks[1..], run - 1, d.s, tail)
    ensures run == 0 ==> var d := RefineDecode(ts[AcSlot(tbl)], order, s, b, ss, |blocks[0]| - 1, al);
                         && Half(d.b, order, blocks[0], ss, |blocks[0]|, al) && d.stray == 0
                         && RefineStands(ts, tbl, ss, blocks[1..], d.run, d.s, tail)
  {
    hide BitsFrom, Legal, Covered, RefineDecode, Corrections, Half, CorrOps, RefineOps;
    var zz := blocks[0];
    if run > 0 {
      var c := Corr(zz, ss, |zz|);
      var rest := RefineSegment(tbl, ss, blocks[run..], 0, []);
      assert blocks[..run][1..] == blocks[1..][..run - 1] && blocks[1..][run - 1..] == blocks[run..];
      CorrConcat(c, AllCorr(ss, blocks[1..][..run - 1]), rest);
      assert Quiet(zz, ss);
      CorrectionsDecode(ts, order, zz, ss, b, ss, al, CorrOps(AllCorr(ss, blocks[1..][..run - 1]), rest), tail);
    } else {
      assert blocks[0..] == blocks && blocks[..0] == [];
      assert CorrOps([], RefineSegment(tbl, ss, blocks, 0, [])) == RefineSegment(tbl, ss, blocks, 0,
          []) by { EmptyCorr(RefineSegment(tbl, ss, blocks, 0, [])); }
      RefineDecodes(ts, tbl, order, ss, zz, b, ss, al, blocks[1..], tail);
    }
  }
}
