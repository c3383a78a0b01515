// Sequential coding of a block (sections F.1.2 and F.2.2 of T.81): the ops that say it, and what a
// decoder makes of any bit string.
module HuffBlock {
  import opened Powers
  import opened Coefs
  import opened HuffCode
  import opened HuffTables
  import opened HuffBits

  // The largest magnitude category of a coefficient of 8-bit samples.
  const MAX_COEF_BITS := 10

  const ZRL := 0xF0

  // ----- ops

  /** A value of known category: nothing for category 0. */
  function ValueOps(v: int, next: Ops): Ops {
    var n := BitLength(Abs(v));
    if n == 0 then next else Then(Raw(Magnitude(v), n), next)
  }

  function DcOps(tbl: nat, diff: int, next: Ops): Ops {
    Then(Sym(DcSlot(tbl), BitLength(Abs(diff))), ValueOps(diff, next))
  }

  /** The AC coefficients from index k of zz on, after r zeros. */
  function AcOps(tbl: nat, zz: seq<int>, k: nat, r: nat, next: Ops): Ops
    requires k <= |zz|
    decreases |zz| - k, r
  {
    if k == |zz| then
      if r > 0 then Then(Sym(AcSlot(tbl), 0), next) else next
    else if zz[k] == 0 then AcOps(tbl, zz, k + 1, r + 1, next)
    else if r > 15 then Then(Sym(AcSlot(tbl), ZRL), AcOps(tbl, zz, k, r - 16, next))
    else
      Then(Sym(AcSlot(tbl), 16 * r + BitLength(Abs(zz[k]))), ValueOps(zz[k], AcOps(tbl, zz, k + 1, 0, next)))
  }

  /** Every coefficient from index k on has at most MAX_COEF_BITS bits. */
  predicate AcInRange(zz: seq<int>, k: nat) {
    forall i :: k <= i < |zz| ==> BitLength(Abs(zz[i])) <= MAX_COEF_BITS
  }

  predicate DcInRange(diff: int) {
    BitLength(Abs(diff)) <= MAX_COEF_BITS + 1
  }

  // ----- the structure of a run

  /** The first nonzero coefficient from k on, or the end. */
  function NextNonzero(zz: seq<int>, k: nat): (j: nat)
    requires k <= |zz|
    ensures k <= j <= |zz| && (j < |zz| ==> zz[j] != 0)
    ensures forall i :: k <= i < j ==> zz[i] == 0
    decreases |zz| - k
  {
    if k == |zz| || zz[k] != 0 then k else NextNonzero(zz, k + 1)
  }

  lemma {:induction false} SkipZeros(tbl: nat, zz: seq<int>, k: nat, j: nat, r: nat, next: Ops)
    requires k <= j <= |zz| && forall i :: k <= i < j ==> zz[i] == 0
    ensures AcOps(tbl, zz, k, r, next) == AcOps(tbl, zz, j, r + (j - k), next)
    decreases j - k
  {
    if k < j {
      SkipZeros(tbl, zz, k + 1, j, r + 1, next);
    }
  }

  /** The next symbol from index k says how far the next nonzero coefficient is, sixteen zeros at a time. */
  lemma AcHead(tbl: nat, zz: seq<int>, k: nat, next: Ops)
    requires k < |zz|
    ensures var j, ops := NextNonzero(zz, k), AcOps(tbl, zz, k, 0, next);
            if j == |zz| then ops == Then(Sym(AcSlot(tbl), 0), next)
            else if j - k > 15 then ops == Then(Sym(AcSlot(tbl), ZRL), AcOps(tbl, zz, k + 16, 0, next))
            else ops == Then(Sym(AcSlot(tbl), 16 * (j - k) + BitLength(Abs(zz[j]))),
                             ValueOps(zz[j], AcOps(tbl, zz, j + 1, 0, next)))
  {
    var j := NextNonzero(zz, k);
    SkipZeros(tbl, zz, k, j, 0, next);
    if j - k > 15 {
      SkipZeros(tbl, zz, k + 16, j, 0, next);
    }
  }

  // ----- decoding any bit string

  /** natural_order, whose extra entries catch indices past the block. */
  function At(order: seq<nat>, k: nat): nat
    requires |order| == 64
  {
    if k < 64 then order[k] else 63
  }

  function RunOf(sym: nat): nat { sym / 16 }
  function SizeOf(sym: nat): nat { sym % 16 }

  /** The value of category n at the head of s. */
  function ValueAt(s: seq<bool>, n: nat): int {
    Extend(Peek(s, n), n)
  }

  function DcDiffAt(t: HuffTbl, s: seq<bool>): int
    requires Legal(t.bits)
  {
    ValueAt(AfterSym(t, s), SymAt(t, s))
  }

  function AfterDc(t: HuffTbl, s: seq<bool>): seq<bool>
    requires Legal(t.bits)
  {
    Rest(AfterSym(t, s), SymAt(t, s))
  }

  datatype Decoded = Decoded(b: Block, s: seq<bool>)

  /** Decode AC coefficients from index k up to se; those from index limit on are discarded. */
  function AcDecode(t: HuffTbl, order: seq<nat>, s: seq<bool>, b: Block, k: nat, limit: nat, se: nat): Decoded
    requires Legal(t.bits) && |order| == 64 && forall i :: 0 <= i < 64 ==> order[i] < 64
    decreases se + 1 - k
  {
    if k > se then Decoded(b, s)
    else
      var sym, s1 := SymAt(t, s), AfterSym(t, s);
      var r, size := RunOf(sym), SizeOf(sym);
      if size != 0 then
        var b' := if k < limit then b[At(order, k + r) := ToCoef(ValueAt(s1, size))] else b;
        AcDecode(t, order, Rest(s1, size), b', k + r + 1, limit, se)
      else if r == 15 then AcDecode(t, order, s1, b, k + 16, limit, se)
      else Decoded(b, s1)
  }

  // ----- what was coded is decoded

  lemma ValueDecodes(ts: Tables, v: int, next: Ops, tail: seq<bool>)
    ensures ValueAt(BitsFrom(ts, ValueOps(v, next), tail), BitLength(Abs(v))) == v
    ensures Rest(BitsFrom(ts, ValueOps(v, next), tail), BitLength(Abs(v))) == BitsFrom(ts, next, tail)
  {
    var n := BitLength(Abs(v));
    if n > 0 {
      PeekNum(Magnitude(v), n, BitsFrom(ts, next, tail));
    }
    ExtendInverts(v);
  }

  lemma SymbolDecodes(ts: Tables, tbl: nat, sym: nat, next: Ops, tail: seq<bool>)
    requires tbl < 8 && Legal(ts[tbl].bits) && HasCode(ts[tbl], sym)
    ensures SymAt(ts[tbl], BitsFrom(ts, Then(Sym(tbl, sym), next), tail)) == sym
    ensures AfterSym(ts[tbl], BitsFrom(ts, Then(Sym(tbl, sym), next), tail)) == BitsFrom(ts, next, tail)
  {
    SymDecodes(ts[tbl], sym, BitsFrom(ts, next, tail));
  }

  lemma DcDecodes(ts: Tables, tbl: nat, diff: int, next: Ops, tail: seq<bool>)
    requires tbl < NUM_HUFF_TBLS && Legal(ts[DcSlot(tbl)].bits) && Covered(ts, DcOps(tbl, diff, next))
    ensures var s := BitsFrom(ts, DcOps(tbl, diff, next), tail);
            && DcDiffAt(ts[DcSlot(tbl)], s) == diff && AfterDc(ts[DcSlot(tbl)], s) == BitsFrom(ts, next, tail)
            && Covered(ts, next)
  {
    hide BitsFrom, SymAt, AfterSym, HasCode, Legal, Extend, Peek, Rest, BitLength;
    SymbolDecodes(ts, DcSlot(tbl), BitLength(Abs(diff)), ValueOps(diff, next), tail);
    ValueDecodes(ts, diff, next, tail);
  }

  /** The coefficients of zz below limit stand in b up to index k, and zeros from there on. */
  ghost predicate Filled(b: Block, order: seq<nat>, zz: seq<int>, k: nat, limit: nat)
    requires IsOrder(order) && |zz| <= 64
  {
    forall i :: 1 <= i < |zz| && i < limit ==> b[order[i]] == if i < k then zz[i] else 0
  }

  ghost predicate AreCoefs(zz: seq<int>) {
    forall i :: 0 <= i < |zz| ==> -0x8000 <= zz[i] < 0x8000
  }

  lemma CodedSymbol(r: nat, v: int)
    requires v != 0 && r <= 15 && BitLength(Abs(v)) <= MAX_COEF_BITS
    ensures var sym := 16 * r + BitLength(Abs(v)); sym < 256 && RunOf(sym) == r && SizeOf(sym) == BitLength(Abs(v)) != 0
  {
  }

  /** Zeros up to index j, then the coefficient there. */
  lemma FilledTo(b: Block, order: seq<nat>, zz: seq<int>, k: nat, j: nat, limit: nat)
    requires IsOrder(order) && |zz| <= 64 && AreCoefs(zz) && Filled(b, order, zz, k, limit)
    requires 1 <= k <= j <= |zz| && forall i :: k <= i < j ==> zz[i] == 0
    ensures Filled(b, order, zz, j, limit)
    ensures j < |zz| ==> zz[j] == ToCoef(zz[j])
    ensures j < |zz| ==> Filled(if k < limit then b[order[j] := zz[j]] else b, order, zz, j + 1, limit)
    ensures j < |zz| && k < limit ==> b[order[j] := zz[j]][order[0]] == b[order[0]]
  {
  }

  lemma CoveredThen(ts: Tables, tbl: nat, sym: nat, next: Ops)
    requires Covered(ts, Then(Sym(tbl, sym), next))
    ensures tbl < 8 && HasCode(ts[tbl], sym) && Covered(ts, next)
  {
  }

  lemma CoveredValue(ts: Tables, v: int, next: Ops)
    ensures Covered(ts, ValueOps(v, next)) == Covered(ts, next)
  {
  }

  lemma NoMoreAc(tbl: nat, zz: seq<int>, next: Ops)
    ensures AcOps(tbl, zz, |zz|, 0, next) == next
  {
  }

  // One step of the decoder for each kind of symbol.
  lemma DecodeEnd(t: HuffTbl, order: seq<nat>, s: seq<bool>, b: Block, k: nat, limit: nat, se: nat)
    requires Legal(t.bits) && |order| == 64 && forall i :: 0 <= i < 64 ==> order[i] < 64
    ensures k > se ==> AcDecode(t, order, s, b, k, limit, se) == Decoded(b, s)
    ensures k <= se && SymAt(t, s) == 0 ==> AcDecode(t, order, s, b, k, limit, se) == Decoded(b, AfterSym(t, s))
    ensures k <= se && SymAt(t, s) == ZRL ==>
              AcDecode(t, order, s, b, k, limit, se) == AcDecode(t, order, AfterSym(t, s), b, k + 16, limit, se)
  {
    hide SymAt, AfterSym, Legal;
  }

  lemma DecodeCoef(t: HuffTbl, order: seq<nat>, s: seq<bool>, b: Block, k: nat, limit: nat, se: nat, j: nat, v: int)
    requires Legal(t.bits) && |order| == 64 && forall i :: 0 <= i < 64 ==> order[i] < 64
    requires k <= j <= se < 64 && SizeOf(SymAt(t, s)) != 0 && RunOf(SymAt(t, s)) == j - k
    requires v == ValueAt(AfterSym(t, s), SizeOf(SymAt(t, s)))
    ensures AcDecode(t, order, s, b, k, limit, se) ==
            AcDecode(t, order, Rest(AfterSym(t, s), SizeOf(SymAt(t, s))),
                     if k < limit then b[order[j] := ToCoef(v)] else b, j + 1, limit, se)
  {
    hide SymAt, AfterSym, Legal, SizeOf, RunOf, ValueAt, ToCoef;
  }

  lemma {:induction false} AcDecodes(ts: Tables, tbl: nat, order: seq<nat>, zz: seq<int>, b: Block, k: nat, limit: nat,
                                     next: Ops, tail: seq<bool>)
    requires tbl < NUM_HUFF_TBLS && Legal(ts[AcSlot(tbl)].bits) && IsOrder(order)
    requires 1 <= k && |zz| <= 64 && AcInRange(zz, 1) && AreCoefs(zz) && Filled(b, order, zz, k, limit)
    requires k <= |zz| && Covered(ts, AcOps(tbl, zz, k, 0, next))
    ensures var d := AcDecode(ts[AcSlot(tbl)], order, BitsFrom(ts, AcOps(tbl, zz, k, 0, next), tail), b, k, limit,
            |zz| - 1);
            && d.s == BitsFrom(ts, next, tail) && Filled(d.b, order, zz, |zz|, limit) && d.b[order[0]] == b[order[0]]
            && Covered(ts, next)
    decreases |zz| - k
  {
    hide BitsFrom, SymAt, AfterSym, HasCode, Legal, Peek, Extend, Rest, BitLength, AcOps, Covered, ValueOps, Filled,
         ToCoef, ValueAt, AcDecode, RunOf, SizeOf;
    var t, s := ts[AcSlot(tbl)], BitsFrom(ts, AcOps(tbl, zz, k, 0, next), tail);
    DecodeEnd(t, order, s, b, k, limit, |zz| - 1);
    if k == |zz| {
      NoMoreAc(tbl, zz, next);
    } else {
      AcHead(tbl, zz, k, next);
      var j := NextNonzero(zz, k);
      var slot := AcSlot(tbl);
      FilledTo(b, order, zz, k, j, limit);
      if j == |zz| {
        CoveredThen(ts, slot, 0, next);
        SymbolDecodes(ts, slot, 0, next, tail);
      } else if j - k > 15 {
        var more := AcOps(tbl, zz, k + 16, 0, next);
        FilledTo(b, order, zz, k, k + 16, limit);
        CoveredThen(ts, slot, ZRL, more);
        SymbolDecodes(ts, slot, ZRL, more, tail);
        AcDecodes(ts, tbl, order, zz, b, k + 16, limit, next, tail);
      } else {
        var more := AcOps(tbl, zz, j + 1, 0, next);
        var sym := 16 * (j - k) + BitLength(Abs(zz[j]));
        CodedSymbol(j - k, zz[j]);
        CoveredThen(ts, slot, sym, ValueOps(zz[j], more));
        CoveredValue(ts, zz[j], more);
        SymbolDecodes(ts, slot, sym, ValueOps(zz[j], more), tail);
        ValueDecodes(ts, zz[j], more, tail);
        DecodeCoef(t, order, s, b, k, limit, |zz| - 1, j, zz[j]);
        var b' := if k < limit then b[order[j] := zz[j]] else b;
        AcDecodes(ts, tbl, order, zz, b', j + 1, limit, next, tail);
      }
    }
  }
}
