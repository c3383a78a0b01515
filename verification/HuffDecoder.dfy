// The Huffman entropy decoder: the MCU decoders of the five modes. Each computes what the bits ahead say,
// or suspends and leaves the blocks so that decoding the MCU again gives the same.
module HuffDecoder {
  import opened Powers
  import opened Coefs
  import opened Digits
  import opened Segments
  import opened HuffCode
  import opened HuffTables
  import opened HuffBits
  import opened HuffBlock
  import opened HuffSpectral
  import opened HuffRefine
  import opened HuffRefineDecode
  import opened HuffResume
  import opened HuffScan
  import opened HuffReader

  // ----- reading within an MCU

  /** The reader when the MCU was begun: the marker seen, whether data had run out, whether the whole
      segment had arrived, and the marker that ends it. */
  datatype Outset = Outset(marker: byte, short: bool, complete: bool, end: Head)

  ghost predicate Since(br: BitReader, m: Outset)
    reads br
  {
    && br.Open()
    && (m.short ==> br.insufficientData)
    && (br.insufficientData && !m.short ==> br.unreadMarker != 0 && br.ahead == [])
    && (m.marker != 0 ==> br.unreadMarker == m.marker)
    && (m.complete ==> br.Complete()) && br.End() == m.end
  }

  /** The reader has to wait for bytes; it has not met the marker, and does not when all has arrived. */
  ghost predicate Waits(br: BitReader, m: Outset)
    reads br
  {
    br.unreadMarker == 0 == m.marker && br.insufficientData == m.short && !m.complete
  }

  ghost predicate DecodesWith(ts: Tables, ds: seq<DDerived>) {
    |ds| == 8 && forall t :: 0 <= t < 8 ==> IsDDerived(ts[t], ds[t])
  }

  method NextSymbol(br: BitReader, t: HuffTbl, d: DDerived, ghost m: Outset) returns (ok: bool, sym: nat)
    requires Since(br, m) && IsDDerived(t, d)
    modifies br`pos, br`buf, br`left, br`ahead, br`unreadMarker, br`insufficientData
    ensures ok ==> Since(br, m) && Legal(t.bits) && sym == SymAt(t, old(br.ahead)) && sym < 256 && br.ahead == AfterSym(t, old(br.ahead))
    ensures !ok ==> Waits(br, m)
  {
    hide IsDDerived, SymAt, AfterSym, BitReader.Complete;
    NothingAhead(t, 0);
    DecodeTables(t, d);
    ok, sym := br.HuffDecode(t, d);
  }

  /** CHECK_BIT_BUFFER and GET_BITS. */
  method NextBits(br: BitReader, n: nat, ghost m: Outset) returns (ok: bool, v: nat)
    requires Since(br, m) && n <= 16
    modifies br`pos, br`buf, br`left, br`ahead, br`unreadMarker, br`insufficientData
    ensures ok ==> Since(br, m) && v == Peek(old(br.ahead), n) && br.ahead == Rest(old(br.ahead), n)
    ensures !ok ==> Waits(br, m)
  {
    hide Peek, Rest, BitReader.Complete;
    RestLength(br.ahead, n);
    ok := br.CheckBitBuffer(n);
    v := 0;
    if ok {
      v := br.GetBits(n);
    }
  }

  lemma NothingAhead(t: HuffTbl, n: nat)
    ensures AfterSym(t, []) == [] && Rest([], n) == []
  {
  }

  /** The value that follows a category. */
  method NextValue(br: BitReader, size: nat, ghost m: Outset) returns (ok: bool, v: int)
    requires Since(br, m) && 1 <= size <= 15
    modifies br`pos, br`buf, br`left, br`ahead, br`unreadMarker, br`insufficientData
    ensures ok ==> Since(br, m) && v == ValueAt(old(br.ahead), size) && br.ahead == Rest(old(br.ahead), size)
    ensures !ok ==> Waits(br, m)
  {
    hide Since, Peek, Rest, Pow2;
    var r;
    ok, r := NextBits(br, size, m);
    v := if r < Pow2(size - 1) then r - (Pow2(size) - 1) else r;
  }

  // ----- what decoding again gives

  /** The positions AcDecode stores to. */
  ghost function AcTouched(t: HuffTbl, order: seq<nat>, s: seq<bool>, k: nat, limit: nat, se: nat): set<nat>
    requires Legal(t.bits) && IsMap(order)
    decreases se + 1 - k
  {
    if k > se then {}
    else
      var sym, s1 := SymAt(t, s), AfterSym(t, s);
      var r, size := RunOf(sym), SizeOf(sym);
      if size != 0 then
        (if k < limit then {At(order, k + r)} else {}) + AcTouched(t, order, Rest(s1, size), k + r + 1, limit, se)
      else if r == 15 then AcTouched(t, order, s1, k + 16, limit, se)
      else {}
  }

  /** Blocks that differ only where decoding stores decode to the same. */
  ghost predicate SameBut(b: Block, c: Block, touched: set<nat>) {
    forall p :: 0 <= p < 64 ==> b[p] == c[p] || p in touched
  }

  lemma {:induction false} AcAgain(t: HuffTbl, order: seq<nat>, s: seq<bool>, b: Block, c: Block, k: nat, limit: nat,
                                   se: nat)
    requires Legal(t.bits) && IsMap(order) && SameBut(b, c, AcTouched(t, order, s, k, limit, se))
    ensures AcDecode(t, order, s, b, k, limit, se) == AcDecode(t, order, s, c, k, limit, se)
    decreases se + 1 - k
  {
    hide SymAt, AfterSym, Rest, Legal, ToCoef, ValueAt, RunOf, SizeOf;
    if k <= se {
      var sym, s1 := SymAt(t, s), AfterSym(t, s);
      var r, size := RunOf(sym), SizeOf(sym);
      if size != 0 {
        var v := ToCoef(ValueAt(s1, size));
        var b', c' := if k < limit then b[At(order, k + r) := v] else b, if k < limit then c[At(order,
            k + r) := v] else c;
        assert SameBut(b', c', AcTouched(t, order, Rest(s1, size), k + r + 1, limit, se));
        AcAgain(t, order, Rest(s1, size), b', c', k + r + 1, limit, se);
      } else if r == 15 {
        AcAgain(t, order, s1, b, c, k + 16, limit, se);
      } else {
        assert b == c;
      }
    } else {
      assert b == c;
    }
  }

  ghost function FirstTouched(t: HuffTbl, order: seq<nat>, s: seq<bool>, k: nat, se: nat): set<nat>
    requires Legal(t.bits) && IsMap(order)
    decreases se + 1 - k
  {
    if k > se then {}
    else
      var sym, s1 := SymAt(t, s), AfterSym(t, s);
      var r, size := RunOf(sym), SizeOf(sym);
      if size != 0 then {At(order, k + r)} + FirstTouched(t, order, Rest(s1, size), k + r + 1, se)
      else if r == 15 then FirstTouched(t, order, s1, k + 16, se)
      else {}
  }

  lemma {:induction false} FirstAgain(t: HuffTbl, order: seq<nat>, s: seq<bool>, b: Block, c: Block, k: nat, se: nat,
                                      al: nat)
    requires Legal(t.bits) && IsMap(order) && SameBut(b, c, FirstTouched(t, order, s, k, se))
    ensures FirstDecode(t, order, s, b, k, se, al) == FirstDecode(t, order, s, c, k, se, al)
    decreases se + 1 - k
  {
    hide SymAt, AfterSym, Rest, Legal, ToCoef, ValueAt, RunOf, SizeOf, RunAt, Pow2;
    if k <= se {
      var sym, s1 := SymAt(t, s), AfterSym(t, s);
      var r, size := RunOf(sym), SizeOf(sym);
      if size != 0 {
        var v := ToCoef(ValueAt(s1, size) * Pow2(al));
        assert SameBut(b[At(order, k + r) := v], c[At(order, k + r) := v], FirstTouched(t, order, Rest(s1, size),
            k + r + 1, se));
        FirstAgain(t, order, Rest(s1, size), b[At(order, k + r) := v], c[At(order, k + r) := v], k + r + 1, se, al);
      } else if r == 15 {
        FirstAgain(t, order, s1, b, c, k + 16, se, al);
      } else {
        assert b == c;
      }
    } else {
      assert b == c;
    }
  }

  // ----- blocks

  /** The AC coefficients of a sequential block; those from index limit on are dropped. */
  method GetAc(br: BitReader, t: HuffTbl, d: DDerived, order: seq<nat>, limit: nat, se: nat, block: array<JCOEF>,
               ghost m: Outset)
    returns (ok: bool)
    requires Since(br, m) && IsDDerived(t, d) && Legal(t.bits) && IsMap(order) && block.Length == 64
    modifies br`pos, br`buf, br`left, br`ahead, br`unreadMarker, br`insufficientData, block
    ensures ok ==> Since(br, m) && Decoded(block[..], br.ahead) == old(AcDecode(t, order, br.ahead, block[..], 1, limit, se))
    ensures !ok ==> Waits(br, m)
    ensures SameBut(old(block[..]), block[..], old(AcTouched(t, order, br.ahead, 1, limit, se)))
  {
    hide Since, SymAt, AfterSym, Rest, Legal, IsDDerived, ValueAt, ToCoef, Waits, AcDecode, AcTouched;
    ghost var b0, s0 := block[..], br.ahead;
    ghost var goal := AcDecode(t, order, s0, b0, 1, limit, se);
    ghost var touched := AcTouched(t, order, s0, 1, limit, se);
    var k := 1;
    while k <= se
      invariant Since(br, m) && AcDecode(t, order, br.ahead, block[..], k, limit, se) == goal
      invariant AcTouched(t, order, br.ahead, k, limit, se) <= touched && SameBut(b0, block[..], touched)
      decreases se + 1 - k
    {
      AcStep(t, order, br.ahead, block[..], k, limit, se);
      var sym;
      ok, sym := NextSymbol(br, t, d, m);
      if !ok {
        return;
      }
      var r, size := sym / 16, sym % 16;
      if size != 0 {
        var v;
        ok, v := NextValue(br, size, m);
        if !ok {
          return;
        }
        if k < limit {
          block[At(order, k + r)] := ToCoef(v);
        }
        k := k + r + 1;
      } else {
        if r != 15 {
          return;
        }
        k := k + 16;
      }
    }
    AcStep(t, order, br.ahead, block[..], k, limit, se);
    ok := true;
  }

  lemma AcStep(t: HuffTbl, order: seq<nat>, s: seq<bool>, b: Block, k: nat, limit: nat, se: nat)
    requires Legal(t.bits) && IsMap(order)
    ensures k > se ==> AcDecode(t, order, s, b, k, limit, se) == Decoded(b, s)
    ensures k <= se ==>
              var sym, s1 := SymAt(t, s), AfterSym(t, s);
              AcDecode(t, order, s, b, k, limit, se) ==
              if sym % 16 != 0 then
                AcDecode(t, order, Rest(s1, sym % 16), if k < limit then b[At(order,
                    k + sym / 16) := ToCoef(ValueAt(s1, sym % 16))] else b,
                         k + sym / 16 + 1, limit, se)
              else if sym / 16 == 15 then AcDecode(t, order, s1, b, k + 16, limit, se)
              else Decoded(b, s1)
    ensures k <= se ==>
              var sym, s1 := SymAt(t, s), AfterSym(t, s);
              AcTouched(t, order, s, k, limit, se) ==
              if sym % 16 != 0 then
                (if k < limit then {At(order, k + sym / 16)} else {}) + AcTouched(t, order, Rest(s1, sym % 16),
                    k + sym / 16 + 1, limit, se)
              else if sym / 16 == 15 then AcTouched(t, order, s1, k + 16, limit, se)
              else {}
  {
    hide SymAt, AfterSym, Rest, Legal, ToCoef, ValueAt;
  }

  /** The band of a block in a first scan, when no run is pending; run is what an end-of-band leaves. */
  method GetAcFirst(br: BitReader, t: HuffTbl, d: DDerived, order: seq<nat>, ss: nat, se: nat, al: nat,
                    block: array<JCOEF>,
                    ghost m: Outset)
    returns (ok: bool, run: nat)
    requires Since(br, m) && IsDDerived(t, d) && Legal(t.bits) && IsMap(order) && block.Length == 64
    modifies br`pos, br`buf, br`left, br`ahead, br`unreadMarker, br`insufficientData, block
    ensures ok ==> Since(br, m)
    ensures ok ==> FirstResult(block[..], br.ahead, run) == old(FirstDecode(t, order, br.ahead, block[..], ss, se, al))
    ensures !ok ==> Waits(br, m)
    ensures SameBut(old(block[..]), block[..], old(FirstTouched(t, order, br.ahead, ss, se)))
  {
    hide Since, SymAt, AfterSym, Rest, Legal, IsDDerived, ValueAt, ToCoef, Waits, FirstDecode, FirstTouched, RunAt,
         Pow2, Peek;
    ghost var b0, s0 := block[..], br.ahead;
    ghost var goal := FirstDecode(t, order, s0, b0, ss, se, al);
    ghost var touched := FirstTouched(t, order, s0, ss, se);
    var k := ss;
    run := 0;
    while k <= se
      invariant Since(br, m) && FirstDecode(t, order, br.ahead, block[..], k, se, al) == goal && run == 0
      invariant FirstTouched(t, order, br.ahead, k, se) <= touched && SameBut(b0, block[..], touched)
      decreases se + 1 - k
    {
      FirstStep(t, order, br.ahead, block[..], k, se, al);
      var sym;
      ok, sym := NextSymbol(br, t, d, m);
      if !ok {
        return;
      }
      var r, size := sym / 16, sym % 16;
      if size != 0 {
        var v;
        ok, v := NextValue(br, size, m);
        if !ok {
          return;
        }
        block[At(order, k + r)] := ToCoef(v * Pow2(al));
        k := k + r + 1;
      } else if r == 15 {
        k := k + 16;
      } else {
        ok, run := NextRun(br, r, m);
        return;
      }
    }
    FirstStep(t, order, br.ahead, block[..], k, se, al);
    ok := true;
  }

  /** The blocks an EOB symbol leaves to come after this one: 2^r plus r bits, less one. */
  method NextRun(br: BitReader, r: nat, ghost m: Outset) returns (ok: bool, run: nat)
    requires Since(br, m) && r <= 14
    modifies br`pos, br`buf, br`left, br`ahead, br`unreadMarker, br`insufficientData
    ensures ok ==> Since(br, m) && run == RunAt(old(br.ahead), r) - 1 && br.ahead == Rest(old(br.ahead), r)
    ensures !ok ==> Waits(br, m)
  {
    hide Since, Waits, Rest;
    ok, run := true, Pow2(r);
    if r != 0 {
      var v;
      ok, v := NextBits(br, r, m);
      run := run + v;
    } else {
      NoBits(br.ahead);
    }
    run := run - 1;
  }

  lemma FirstStep(t: HuffTbl, order: seq<nat>, s: seq<bool>, b: Block, k: nat, se: nat, al: nat)
    requires Legal(t.bits) && IsMap(order)
    ensures k > se ==> FirstDecode(t, order, s, b, k, se, al) == FirstResult(b, s, 0)
    ensures k <= se ==>
              var sym, s1 := SymAt(t, s), AfterSym(t, s);
              FirstDecode(t, order, s, b, k, se, al) ==
              if sym % 16 != 0 then
                FirstDecode(t, order, Rest(s1, sym % 16), b[At(order, k + sym / 16) := ToCoef(ValueAt(s1,
                    sym % 16) * Pow2(al))],
                            k + sym / 16 + 1, se, al)
              else if sym / 16 == 15 then FirstDecode(t, order, s1, b, k + 16, se, al)
              else FirstResult(b, Rest(s1, sym / 16), RunAt(s1, sym / 16) - 1)
    ensures k <= se ==>
              var sym, s1 := SymAt(t, s), AfterSym(t, s);
              FirstTouched(t, order, s, k, se) ==
              if sym % 16 != 0 then {At(order, k + sym / 16)} + FirstTouched(t, order, Rest(s1, sym % 16),
                  k + sym / 16 + 1, se)
              else if sym / 16 == 15 then FirstTouched(t, order, s1, k + 16, se)
              else {}
  {
    hide SymAt, AfterSym, Rest, Legal, ToCoef, ValueAt, RunAt, Pow2;
  }

  // ----- refinement

  /** Add the correction bit at the head of the bits to a nonzero coefficient. */
  method CorrectCoef(br: BitReader, block: array<JCOEF>, p: nat, al: nat, ghost m: Outset) returns (ok: bool)
    requires Since(br, m) && block.Length == 64 && p < 64
    modifies br`pos, br`buf, br`left, br`ahead, br`unreadMarker, br`insufficientData, block
    ensures ok ==> Since(br, m) && br.ahead == Rest(old(br.ahead), 1)
    ensures ok ==> block[..] == old(block[..])[p := Correct(old(block[p]), Peek(old(br.ahead), 1), al)]
    ensures !ok ==> Waits(br, m) && block[..] == old(block[..])
  {
    hide Since, Waits, Rest, Peek, Pow2, ToCoef;
    var bit;
    ok, bit := NextBits(br, 1, m);
    if ok && bit == 1 {
      if block[p] / Pow2(al) % 2 == 0 {
        if block[p] >= 0 {
          block[p] := ToCoef(block[p] + Pow2(al));
        } else {
          block[p] := ToCoef(block[p] - Pow2(al));
        }
      }
    }
  }

  /** g agrees with what the part of the block that advancing passes comes to. */
  ghost predicate OnWay(g: Block, order: seq<nat>, k: nat, a: Advanced, se: nat)
    requires IsOrder(order) && se < 64
  {
    forall i :: k <= i < a.k && i <= se ==> g[order[i]] == a.b[order[i]]
  }

  /** Move over nonzero coefficients, correcting them, and r zeros; g is what the block will come to. */
  method AdvanceOver(br: BitReader, order: seq<nat>, k0: nat, r0: nat, se: nat, al: nat, block: array<JCOEF>,
                     ghost g: Block,
                     ghost m: Outset)
    returns (ok: bool, k: nat)
    requires Since(br, m) && IsOrder(order) && block.Length == 64 && se < 64 && al <= MAX_AL
    requires OnWay(g, order, k0, Advance(order, br.ahead, block[..], k0, r0, se, al), se)
    modifies br`pos, br`buf, br`left, br`ahead, br`unreadMarker, br`insufficientData, block
    ensures ok ==> Since(br, m) && Advanced(block[..], br.ahead, k) == old(Advance(order, br.ahead, block[..], k0, r0, se, al))
    ensures Partial(old(block[..]), block[..], g) && (!ok ==> Waits(br, m))
  {
    hide Since, Waits, Rest, Peek, Correct, Advance;
    ghost var b0, s0 := block[..], br.ahead;
    ghost var goal := Advance(order, s0, b0, k0, r0, se, al);
    k := k0;
    var r := r0;
    while k <= se
      invariant Since(br, m) && k0 <= k && Advance(order, br.ahead, block[..], k, r, se, al) == goal
      invariant Partial(b0, block[..], g)
      decreases se + 1 - k
    {
      AdvanceStep(order, br.ahead, block[..], k, r, se, al);
      var p := order[k];
      if block[p] != 0 {
        ghost var b := block[..];
        AdvancePasses(order, br.ahead, b, k, r, se, al);
        ok := CorrectCoef(br, block, p, al, m);
        if !ok {
          return;
        }
        assert g[p] == block[..][p];
      } else if r == 0 {
        return true, k;
      } else {
        r := r - 1;
      }
      k := k + 1;
    }
    AdvanceStep(order, br.ahead, block[..], k, r, se, al);
    ok := true;
  }

  lemma AdvanceStep(order: seq<nat>, s: seq<bool>, b: Block, k: nat, r: nat, se: nat, al: nat)
    requires IsMap(order) && se < 64
    ensures Advance(order, s, b, k, r, se, al) ==
            if k > se then Advanced(b, s, k)
            else if b[order[k]] != 0 then
              Advance(order, Rest(s, 1), b[order[k] := Correct(b[order[k]], Peek(s, 1), al)], k + 1, r, se, al)
            else if r == 0 then Advanced(b, s, k)
            else Advance(order, s, b, k + 1, r - 1, se, al)
  {
    hide Rest, Peek, Correct;
  }

  /** A coefficient that is corrected is passed for good. */
  lemma AdvancePasses(order: seq<nat>, s: seq<bool>, b: Block, k: nat, r: nat, se: nat, al: nat)
    requires IsOrder(order) && k <= se < 64 && al <= MAX_AL && b[order[k]] != 0
    ensures var a := Advance(order, s, b, k, r, se, al);
            a.k > k && a.b[order[k]] == Correct(b[order[k]], Peek(s, 1), al)
  {
    hide Rest, Peek, Correct, Advance;
    AdvanceStep(order, s, b, k, r, se, al);
    AdvanceKeeps(order, Rest(s, 1), b[order[k] := Correct(b[order[k]], Peek(s, 1), al)], k + 1, r, se, al);
  }

  /** The corrections of the rest of a band. */
  method CorrectRest(br: BitReader, order: seq<nat>, k0: nat, se: nat, al: nat, block: array<JCOEF>, ghost g: Block,
                     ghost m: Outset)
    returns (ok: bool)
    requires Since(br, m) && IsOrder(order) && block.Length == 64 && se < 64 && al <= MAX_AL
    requires forall i :: k0 <= i <= se ==>
             g[order[i]] == Corrections(order, br.ahead, block[..], k0, se, al).b[order[i]]
    modifies br`pos, br`buf, br`left, br`ahead, br`unreadMarker, br`insufficientData, block
    ensures ok ==> Since(br, m) && Decoded(block[..], br.ahead) == old(Corrections(order, br.ahead, block[..], k0, se, al))
    ensures !ok ==> Waits(br, m) && Partial(old(block[..]), block[..], g)
  {
    hide Since, Waits, Rest, Peek, Correct, Corrections;
    ghost var b0, s0 := block[..], br.ahead;
    ghost var goal := Corrections(order, s0, b0, k0, se, al);
    var k := k0;
    while k <= se
      invariant Since(br, m) && k0 <= k && Corrections(order, br.ahead, block[..], k, se, al) == goal
      invariant Partial(b0, block[..], g)
      decreases se + 1 - k
    {
      CorrectionsStep(order, br.ahead, block[..], k, se, al);
      var p := order[k];
      if block[p] != 0 {
        ghost var b := block[..];
        CorrectionsPass(order, br.ahead, b, k, se, al);
        ok := CorrectCoef(br, block, p, al, m);
        if !ok {
          return;
        }
        assert g[p] == block[..][p];
      }
      k := k + 1;
    }
    CorrectionsStep(order, br.ahead, block[..], k, se, al);
    ok := true;
  }

  lemma CorrectionsStep(order: seq<nat>, s: seq<bool>, b: Block, k: nat, se: nat, al: nat)
    requires IsMap(order) && se < 64
    ensures Corrections(order, s, b, k, se, al) ==
            if k > se then Decoded(b, s)
            else if b[order[k]] != 0 then
              Corrections(order, Rest(s, 1), b[order[k] := Correct(b[order[k]], Peek(s, 1), al)], k + 1, se, al)
            else Corrections(order, s, b, k + 1, se, al)
  {
    hide Rest, Peek, Correct;
  }

  lemma CorrectionsPass(order: seq<nat>, s: seq<bool>, b: Block, k: nat, se: nat, al: nat)
    requires IsOrder(order) && k <= se < 64 && al <= MAX_AL && b[order[k]] != 0
    ensures Corrections(order, s, b, k, se, al).b[order[k]] == Correct(b[order[k]], Peek(s, 1), al)
  {
    hide Rest, Peek, Correct, Advance, Corrections;
    CorrectionsAdvance(order, s, b, k, 66, se, al);
    AdvancePasses(order, s, b, k, 66, se, al);
  }

  /** A block of a refinement scan: within a run only corrections, otherwise symbols too. */
  function RefineBand(t: HuffTbl, order: seq<nat>, s: seq<bool>, b: Block, run: nat, ss: nat, se: nat,
                      al: nat): RefineResult
    requires Legal(t.bits) && IsMap(order) && se < 64
  {
    if run > 0 then
      var c := Corrections(order, s, b, ss, se, al);
      RefineResult(c.b, c.s, run - 1, 0)
    else RefineDecode(t, order, s, b, ss, se, al)
  }

  /** The block with the value that went past the band, if any. */
  function Finished(d: RefineResult, order: seq<nat>, se: nat): Block
    requires IsMap(order)
  {
    if d.stray != 0 then d.b[At(order, se + 1) := ToCoef(d.stray)] else d.b
  }

  /** Of the block's changes so far, the new coefficients are listed in newnz[..n]; the others are corrections. */
  ghost predicate Tracked(b0: Block, b: Block, g: Block, newnz: seq<nat>)
  {
    && (forall i :: 0 <= i < |newnz| ==> newnz[i] < 64 && b0[newnz[i]] == 0)
    && forall p :: 0 <= p < 64 ==> b[p] == b0[p] || (b0[p] != 0 && b[p] == g[p]) || p in newnz
  }

  lemma TrackedMore(b0: Block, b: Block, c: Block, g: Block, newnz: seq<nat>)
    requires Tracked(b0, b, g, newnz) && Partial(b, c, g)
    ensures Tracked(b0, c, g, newnz)
  {
  }

  /** Undo the new coefficients. */
  method Undo(block: array<JCOEF>, newnzPos: array<nat>, numNewnz: nat, ghost b0: Block, ghost g: Block)
    requires block.Length == 64 && numNewnz <= newnzPos.Length && Tracked(b0, block[..], g, newnzPos[..numNewnz])
    modifies block
    ensures Partial(b0, block[..], g)
  {
    ghost var newnz := newnzPos[..numNewnz];
    var n := numNewnz;
    while n > 0
      invariant n <= numNewnz && newnzPos[..numNewnz] == newnz
      invariant forall i :: n <= i < numNewnz ==> block[newnz[i]] == 0
      invariant forall p :: 0 <= p < 64 ==> block[p] == b0[p] || (b0[p] != 0 && block[p] == g[p]) || p in newnz
    {
      n := n - 1;
      block[newnzPos[n]] := 0;
    }
  }

  /** One step of the refinement decoder, and what of the result is settled by it. */
  lemma RefineSteps(t: HuffTbl, order: seq<nat>, s: seq<bool>, b: Block, k: nat, se: nat, al: nat)
    requires Legal(t.bits) && IsOrder(order) && se < 64 && al <= MAX_AL
    ensures k > se ==> RefineDecode(t, order, s, b, k, se, al) == RefineResult(b, s, 0, 0)
    ensures k <= se ==>
              var sym, s1, d := SymAt(t, s), AfterSym(t, s), RefineDecode(t, order, s, b, k, se, al);
              var r, size := sym / 16, sym % 16;
              if size == 0 && r != 15 then
                var c := Corrections(order, Rest(s1, r), b, k, se, al);
                d == RefineResult(c.b, c.s, RunAt(s1, r) - 1, 0)
              else
                var a := Skipped(order, s1, b, size, r, k, se, al);
                && OnWay(d.b, order, k, a, se) && k <= a.k <= se + 1
                && (size == 0 ==> d == RefineDecode(t, order, a.s, a.b, a.k + 1, se, al))
                && (size != 0 && a.k > se ==> d == RefineResult(a.b, a.s, 0, NewValue(s1, al)))
                && (size != 0 && a.k <= se ==> a.b[order[a.k]] == 0)
                && (size != 0 && a.k <= se ==>
                     d == RefineDecode(t, order, a.s, a.b[order[a.k] := ToCoef(NewValue(s1, al))], a.k + 1, se, al))
  {
    hide SymAt, AfterSym, Rest, Legal, ToCoef, Advance, Corrections, NewValue, RunAt, RunOf, SizeOf;
    if k <= se {
      var sym, s1 := SymAt(t, s), AfterSym(t, s);
      var r, size := sym / 16, sym % 16;
      SymParts(sym);
      if size != 0 || r == 15 {
        var a := Skipped(order, s1, b, size, r, k, se, al);
        var s2 := if size != 0 then Rest(s1, 1) else s1;
        AdvanceKeeps(order, s2, b, k, r, se, al);
        AdvanceInBand(order, s2, b, k, r, se, al);
        if size == 0 {
          RefineKeeps(t, order, a.s, a.b, a.k + 1, se, al);
        } else if a.k <= se {
          RefineKeeps(t, order, a.s, a.b[order[a.k] := ToCoef(NewValue(s1, al))], a.k + 1, se, al);
        }
      }
    }
  }

  lemma SymParts(sym: nat)
    ensures RunOf(sym) == sym / 16 && SizeOf(sym) == sym % 16
  {
  }

  /** Where a run leads: after the sign bit of a new coefficient, or a run of sixteen zeros. */
  function Skipped(order: seq<nat>, s: seq<bool>, b: Block, size: nat, r: nat, k: nat, se: nat, al: nat): Advanced
    requires IsMap(order) && se < 64
  {
    Advance(order, if size != 0 then Rest(s, 1) else s, b, k, r, se, al)
  }

  /** The sign of a new coefficient, if there is one, and the run before it. */
  method SkipRun(br: BitReader, order: seq<nat>, r: nat, size: nat, k0: nat, se: nat, al: nat, block: array<JCOEF>,
                 ghost g: Block, ghost m: Outset)
    returns (ok: bool, v: int, k: nat)
    requires Since(br, m) && IsOrder(order) && block.Length == 64 && se < 64 && al <= MAX_AL
    requires OnWay(g, order, k0, Skipped(order, br.ahead, block[..], size, r, k0, se, al), se)
    modifies br`pos, br`buf, br`left, br`ahead, br`unreadMarker, br`insufficientData, block
    ensures ok ==> Since(br, m) && Advanced(block[..], br.ahead, k) == old(Skipped(order, br.ahead, block[..], size, r, k0, se, al))
    ensures ok && size != 0 ==> v == NewValue(old(br.ahead), al)
    ensures Partial(old(block[..]), block[..], g) && (!ok ==> Waits(br, m))
  {
    hide Since, Waits, Rest, Peek, Advance, OnWay, Pow2;
    v, k := 0, k0;
    if size != 0 {
      var bit;
      ok, bit := NextBits(br, 1, m);
      if !ok {
        return;
      }
      var p1: int := Pow2(al);
      v := if bit == 1 then p1 else -p1;
    }
    ok, k := AdvanceOver(br, order, k0, r, se, al, block, g, m);
  }

  /** An end-of-band: its run, and the corrections of the rest of this block. */
  method EndOfBand(br: BitReader, order: seq<nat>, r: nat, k: nat, se: nat, al: nat, block: array<JCOEF>,
                   ghost g: Block,
                   ghost m: Outset)
    returns (ok: bool, run: nat)
    requires Since(br, m) && IsOrder(order) && block.Length == 64 && se < 64 && al <= MAX_AL && r <= 14
    requires g == Corrections(order, Rest(br.ahead, r), block[..], k, se, al).b
    modifies br`pos, br`buf, br`left, br`ahead, br`unreadMarker, br`insufficientData, block
    ensures ok ==> Since(br, m) && run == RunAt(old(br.ahead), r) - 1
    ensures ok ==> Decoded(block[..], br.ahead) == old(Corrections(order, Rest(br.ahead, r), block[..], k, se, al))
    ensures !ok ==> Waits(br, m) && Partial(old(block[..]), block[..], g)
  {
    hide Since, Waits, Rest, Peek, Corrections, RunAt;
    ok, run := NextRun(br, r, m);
    if ok {
      ok := CorrectRest(br, order, k, se, al, block, g, m);
    }
  }

  /** A new coefficient joins the list. */
  lemma TrackNew(b0: Block, c: Block, g: Block, newnz: seq<nat>, p: nat, v: JCOEF)
    requires Tracked(b0, c, g, newnz) && p < 64 && c[p] == 0 && (b0[p] != 0 ==> g[p] != 0)
    ensures Tracked(b0, c[p := v], g, newnz + [p])
  {
    forall q | 0 <= q < 64
      ensures c[p := v][q] == b0[q] || (b0[q] != 0 && c[p := v][q] == g[q]) || q in newnz + [p]
    {
      if q == p {
        assert (newnz + [p])[|newnz|] == p;
      } else {
        assert q in newnz ==> q in newnz + [p];
      }
    }
  }

  /** The band of a block in a refinement scan. A suspension undoes the new coefficients. */
  method GetAcRefine(br: BitReader, t: HuffTbl, d: DDerived, order: seq<nat>, eobrun: nat, ss: nat, se: nat, al: nat,
                     block: array<JCOEF>, ghost m: Outset)
    returns (ok: bool, run: nat)
    requires Since(br, m) && IsDDerived(t, d) && Legal(t.bits) && IsOrder(order) && block.Length == 64
    requires se < 64 && al <= MAX_AL
    modifies br`pos, br`buf, br`left, br`ahead, br`unreadMarker, br`insufficientData, block
    ensures var g := old(RefineBand(t, order, br.ahead, block[..], eobrun, ss, se, al));
            && (ok ==> Since(br, m) && br.ahead == g.s && run == g.run && block[..] == Finished(g, order, se))
            && (!ok ==> Waits(br, m) && Partial(old(block[..]), block[..], g.b))
  {
    hide Since, Waits, SymAt, AfterSym, Rest, Legal, IsDDerived, Peek, Correct, Corrections, Advance, RefineDecode,
         RunAt, Pow2,
         ToCoef, Partial, Tracked;
    ghost var b0, s0 := block[..], br.ahead;
    if eobrun > 0 {
      ok := CorrectRest(br, order, ss, se, al, block, Corrections(order, s0, b0, ss, se, al).b, m);
      run := eobrun - 1;
      return;
    }
    ghost var goal := RefineDecode(t, order, s0, b0, ss, se, al);
    var newnzPos := new nat[64](_ => 0);
    var numNewnz: nat, k := 0, ss;
    run := 0;
    RefineKeeps(t, order, s0, b0, ss, se, al);
    NothingTracked(b0, goal.b);
    assert newnzPos[..0] == [];
    while k <= se
      invariant Since(br, m) && ss <= k && run == 0 && RefineDecode(t, order, br.ahead, block[..], k, se, al) == goal
      invariant numNewnz <= 64 && numNewnz <= k - ss && Tracked(b0, block[..], goal.b, newnzPos[..numNewnz])
      decreases se + 1 - k
    {
      ghost var b, s := block[..], br.ahead;
      RefineSteps(t, order, s, b, k, se, al);
      var sym;
      ok, sym := NextSymbol(br, t, d, m);
      if !ok {
        Undo(block, newnzPos, numNewnz, b0, goal.b);
        return;
      }
      var r, size := sym / 16, sym % 16;
      if size == 0 && r != 15 {
        ok, run := EndOfBand(br, order, r, k, se, al, block, goal.b, m);
        if !ok {
          TrackedMore(b0, b, block[..], goal.b, newnzPos[..numNewnz]);
          Undo(block, newnzPos, numNewnz, b0, goal.b);
        }
        return;
      }
      var v;
      ok, v, k := SkipRun(br, order, r, size, k, se, al, block, goal.b, m);
      ghost var c := block[..];
      TrackedMore(b0, b, c, goal.b, newnzPos[..numNewnz]);
      if !ok {
        Undo(block, newnzPos, numNewnz, b0, goal.b);
        return;
      }
      if size != 0 {
        block[At(order, k)] := ToCoef(v);
        if k > se {
          StrayValue(AfterSym(t, s), al);
          return;
        }
        TrackNew(b0, c, goal.b, newnzPos[..numNewnz], order[k], ToCoef(v));
        newnzPos[numNewnz] := At(order, k);
        numNewnz := numNewnz + 1;
        assert newnzPos[..numNewnz] == newnzPos[..numNewnz - 1] + [order[k]];
      }
      k := k + 1;
    }
    RefineSteps(t, order, br.ahead, block[..], k, se, al);
    ok := true;
  }

  lemma StrayValue(s: seq<bool>, al: nat)
    ensures NewValue(s, al) != 0
  {
  }

  lemma NothingTracked(b0: Block, g: Block)
    ensures Tracked(b0, b0, g, [])
  {
  }

  // ----- MCUs

  /** The tables are legal, and those in DC slots hold categories. */
  ghost predicate GoodTables(ts: Tables) {
    forall t :: 0 <= t < 8 ==> Legal(ts[t].bits) && (t < NUM_HUFF_TBLS ==>
        forall p :: 0 <= p < 256 && p < NumSymbols(ts[t]) ==> ts[t].vals[p] <= 15)
  }

  /** What a decoder carries from one MCU to the next, and the bits ahead. */
  datatype DecState = DecState(pred: seq<int>, run: nat, s: seq<bool>)

  ghost predicate IsDecState(st: DecState) {
    |st.pred| == MAX_COMPS_IN_SCAN
  }

  datatype McuResult = McuResult(st: DecState, blocks: seq<Block>)

  function SetBit(c: JCOEF, al: nat): JCOEF {
    if c / Pow2(al) % 2 == 0 then ToCoef(c + Pow2(al)) else c
  }

  /** Block i of an MCU in the modes that code block after block; limit is the number of coefficients wanted. */
  function BlockDecode(sc: Scan, ts: Tables, limit: nat, st: DecState, i: nat, b: Block): (r: McuResult)
    requires IsScan(sc) && GoodTables(ts) && IsDecState(st) && i < |sc.membership|
    ensures IsDecState(r.st) && |r.blocks| == 1
  {
    var ci := sc.membership[i];
    var comp := sc.comps[ci];
    var t := ts[DcSlot(comp.dcTbl)];
    match ModeOf(sc)
    case Sequential =>
      var v, s := st.pred[ci] + DcDiffAt(t, st.s), AfterDc(t, st.s);
      var d := AcDecode(ts[AcSlot(comp.acTbl)], sc.order, s, if limit > 0 then b[0 := ToCoef(v)] else b, 1, limit,
          sc.se);
      McuResult(st.(pred := if limit > 0 then st.pred[ci := v] else st.pred, s := d.s), [d.b])
    case DcFirst =>
      var v, s := st.pred[ci] + DcDiffAt(t, st.s), AfterDc(t, st.s);
      McuResult(st.(pred := st.pred[ci := v], s := s), [b[0 := ToCoef(v * Pow2(sc.al))]])
    case _ =>
      McuResult(st.(s := Rest(st.s, 1)), [if Peek(st.s, 1) == 1 then b[0 := SetBit(b[0], sc.al)] else b])
  }

  /** Blocks i, i+1, ... of an MCU. */
  function BlocksDecode(sc: Scan, ts: Tables, limits: seq<nat>, st: DecState, i: nat,
                        blocks: seq<Block>): (r: McuResult)
    requires IsScan(sc) && GoodTables(ts) && IsDecState(st) && |blocks| == |limits| == |sc.membership| && i <= |blocks|
    ensures IsDecState(r.st) && |r.blocks| == |blocks| - i
    decreases |blocks| - i
  {
    if i == |blocks| then McuResult(st, [])
    else
      var r := BlockDecode(sc, ts, limits[i], st, i, blocks[i]);
      var q := BlocksDecode(sc, ts, limits, r.st, i + 1, blocks);
      McuResult(q.st, r.blocks + q.blocks)
  }

  /** One MCU, in any mode. */
  function McuDecode(sc: Scan, ts: Tables, limits: seq<nat>, st: DecState, blocks: seq<Block>): (r: McuResult)
    requires IsScan(sc) && GoodTables(ts) && IsDecState(st) && |blocks| == |limits| == |sc.membership|
    ensures IsDecState(r.st) && |r.blocks| == |blocks|
  {
    var t := ts[AcSlot(sc.comps[0].acTbl)];
    match ModeOf(sc)
    case AcFirst =>
      if st.run > 0 then McuResult(st.(run := st.run - 1), blocks)
      else
        var d := FirstDecode(t, sc.order, st.s, blocks[0], sc.ss, sc.se, sc.al);
        McuResult(st.(run := d.run, s := d.s), blocks[0 := d.b])
    case AcRefine =>
      var d := RefineBand(t, sc.order, st.s, blocks[0], st.run, sc.ss, sc.se, sc.al);
      McuResult(st.(run := d.run, s := d.s), blocks[0 := Finished(d, sc.order, sc.se)])
    case _ => BlocksDecode(sc, ts, limits, st, 0, blocks)
  }

  // ----- decoding an MCU again

  /** The DC difference. */
  method GetDc(br: BitReader, t: HuffTbl, d: DDerived, ghost m: Outset) returns (ok: bool, diff: int)
    requires Since(br, m) && IsDDerived(t, d) && Legal(t.bits)
    requires forall p :: 0 <= p < 256 && p < NumSymbols(t) ==> t.vals[p] <= 15
    modifies br`pos, br`buf, br`left, br`ahead, br`unreadMarker, br`insufficientData
    ensures ok ==> Since(br, m) && diff == DcDiffAt(t, old(br.ahead)) && br.ahead == AfterDc(t, old(br.ahead))
    ensures !ok ==> Waits(br, m)
  {
    hide Since, Waits, IsDDerived, SymAt, AfterSym, Legal, Start;
    SymIsCategory(t, br.ahead);
    NoValue(AfterSym(t, br.ahead));
    var sym;
    ok, sym := NextSymbol(br, t, d, m);
    diff := 0;
    if ok && sym != 0 {
      ok, diff := NextValue(br, sym, m);
    }
  }

  lemma SymIsCategory(t: HuffTbl, s: seq<bool>)
    requires Legal(t.bits) && forall p :: 0 <= p < 256 && p < NumSymbols(t) ==> t.vals[p] <= 15
    ensures SymAt(t, s) <= 15
  {
    hide Legal, Search, HasLength, Peek;
    var l := Search(t.bits, s, 1);
    if l <= 16 {
      SearchIndex(t.bits, s);
      IndexInTable(t.bits, Peek(s, l) + ValOffset(t.bits, l), l);
    }
  }

  lemma NoValue(s: seq<bool>)
    ensures ValueAt(s, 0) == 0 && Rest(s, 0) == s
  {
  }

  /** One block; what a suspension leaves decodes to the same. */
  method GetBlock(br: BitReader, sc: Scan, ts: Tables, ds: seq<DDerived>, limit: nat, st: seq<int>, i: nat,
                  block: array<JCOEF>,
                  ghost run: nat, ghost m: Outset)
    returns (ok: bool, st': seq<int>)
    requires Since(br, m) && IsScan(sc) && !ModeOf(sc).AcFirst? && !ModeOf(sc).AcRefine? && GoodTables(ts) &&
             DecodesWith(ts, ds)
    requires |st| == MAX_COMPS_IN_SCAN && i < |sc.membership| && block.Length == 64
    modifies br`pos, br`buf, br`left, br`ahead, br`unreadMarker, br`insufficientData, block
    ensures ok ==> Since(br, m) && |st'| == MAX_COMPS_IN_SCAN
    ensures ok ==> McuResult(DecState(st', run, br.ahead), [block[..]]) ==
                   old(BlockDecode(sc, ts, limit, DecState(st, run, br.ahead), i, block[..]))
    ensures !ok ==> Waits(br, m)
    ensures BlockDecode(sc, ts, limit, DecState(st, run, old(br.ahead)), i, block[..]) ==
            old(BlockDecode(sc, ts, limit, DecState(st, run, br.ahead), i, block[..]))
  {
    hide Since, Waits, IsDDerived, Legal, IsOrder, AcDecode, DcDiffAt, AfterDc, ToCoef, Pow2, AcTouched, Rest, Peek,
         SetBit;
    ghost var b0, s0 := block[..], br.ahead;
    var ci := sc.membership[i];
    var comp := sc.comps[ci];
    st' := st;
    if ModeOf(sc).DcRefine? {
      var bit;
      ok, bit := NextBits(br, 1, m);
      if ok && bit == 1 {
        SetTwice(block[0], sc.al);
        block[0] := SetBit(block[0], sc.al);
        assert block[..] == b0[0 := SetBit(b0[0], sc.al)];
        assert block[..][0 := SetBit(block[0], sc.al)] == block[..];
      }
    } else {
      var diff;
      ok, diff := GetDc(br, ts[DcSlot(comp.dcTbl)], ds[DcSlot(comp.dcTbl)], m);
      if !ok {
        return;
      }
      var v := st[ci] + diff;
      if ModeOf(sc).DcFirst? {
        st' := st[ci := v];
        block[0] := ToCoef(v * Pow2(sc.al));
        assert block[..] == b0[0 := ToCoef(v * Pow2(sc.al))];
        assert block[..][0 := ToCoef(v * Pow2(sc.al))] == block[..];
      } else {
        if limit > 0 {
          st' := st[ci := v];
          block[0] := ToCoef(v);
        }
        ghost var b1, s1 := block[..], br.ahead;
        var slot := AcSlot(comp.acTbl);
        OrderIsMap(sc);
        ok := GetAc(br, ts[slot], ds[slot], sc.order, limit, sc.se, block, m);
        RestoreDc(b0, b1, block[..], limit, ToCoef(v), AcTouched(ts[slot], sc.order, s1, 1, limit, sc.se));
        AcAgain(ts[slot], sc.order, s1, b1, if limit > 0 then block[..][0 := ToCoef(v)] else block[..], 1, limit,
            sc.se);
      }
    }
  }

  lemma OrderIsMap(sc: Scan)
    requires IsScan(sc)
    ensures IsMap(sc.order)
  {
  }

  lemma RestoreDc(b0: Block, b1: Block, b: Block, limit: nat, v: JCOEF, touched: set<nat>)
    requires SameBut(b1, b, touched) && b1 == if limit > 0 then b0[0 := v] else b0
    ensures SameBut(b1, if limit > 0 then b[0 := v] else b, touched)
  {
  }

  lemma SetTwice(c: JCOEF, al: nat)
    requires al <= MAX_AL
    ensures SetBit(SetBit(c, al), al) == SetBit(c, al)
  {
    hide Pow2;
    Pow2Add(al, 16 - al);
    Pow2Add(1, 15 - al);
    Pow2Values();
    Pow2Monotone(al, 13);
    Pow2Thirteen();
    ParityFlips(c, Pow2(al), Pow2(15 - al));
    StoreSum(c + Pow2(al));
  }

  /** Block k of c decodes as that of b does. */
  ghost predicate Alike(sc: Scan, ts: Tables, limit: nat, st: DecState, k: nat, b: Block, c: Block)
    requires IsScan(sc) && GoodTables(ts) && k < |sc.membership|
  {
    IsDecState(st) && BlockDecode(sc, ts, limit, st, k, c) == BlockDecode(sc, ts, limit, st, k, b)
  }

  /** The first n blocks of b have been decoded, to those of c; states are the states before each block. */
  ghost predicate Passes(sc: Scan, ts: Tables, limits: seq<nat>, states: seq<DecState>, b: seq<Block>, c: seq<Block>,
                         n: nat)
    requires IsScan(sc) && GoodTables(ts) && |b| == |c| == |limits| == |sc.membership| && n <= |b|
  {
    && |states| == n + 1 && IsDecState(states[n])
    && (forall k :: 0 <= k < n ==> Alike(sc, ts, limits[k], states[k], k, b[k], c[k]))
    && (forall k :: 0 <= k < n ==>
        BlockDecode(sc, ts, limits[k], states[k], k, b[k]) == McuResult(states[k + 1], [c[k]]))
    && forall k :: n <= k < |b| ==> c[k] == b[k]
  }

  lemma PassesNone(sc: Scan, ts: Tables, limits: seq<nat>, st: DecState, b: seq<Block>)
    requires IsScan(sc) && GoodTables(ts) && |b| == |limits| == |sc.membership| && IsDecState(st)
    ensures Passes(sc, ts, limits, [st], b, b, 0)
  {
  }

  lemma PassesMore(sc: Scan, ts: Tables, limits: seq<nat>, states: seq<DecState>, b: seq<Block>, c: seq<Block>, n: nat,
                   st: DecState, x: Block)
    requires IsScan(sc) && GoodTables(ts) && |b| == |c| == |limits| == |sc.membership| && n < |b|
    requires Passes(sc, ts, limits, states, b, c, n) && Alike(sc, ts, limits[n], states[n], n, b[n], x)
    requires BlockDecode(sc, ts, limits[n], states[n], n, b[n]) == McuResult(st, [x])
    ensures Passes(sc, ts, limits, states + [st], b, c[n := x], n + 1)
  {
    hide BlockDecode, IsScan, GoodTables, Alike;
  }

  /** Blocks that each decode to the same do so together, the one being decoded included. */
  lemma {:induction false} BlocksAgain(sc: Scan, ts: Tables, limits: seq<nat>, states: seq<DecState>, b: seq<Block>,
                                       c: seq<Block>,
                                       i: nat, n: nat, x: Block)
    requires IsScan(sc) && GoodTables(ts) && |b| == |c| == |limits| == |sc.membership| && i <= n < |b|
    requires Passes(sc, ts, limits, states, b, c, n) && Alike(sc, ts, limits[n], states[n], n, b[n], x)
    ensures IsDecState(states[i])
    ensures BlocksDecode(sc, ts, limits, states[i], i, c[n := x]) == BlocksDecode(sc, ts, limits, states[i], i, b)
    decreases n - i
  {
    hide BlockDecode, IsScan, GoodTables;
    if i < n {
      BlocksAgain(sc, ts, limits, states, b, c, i + 1, n, x);
      assert Alike(sc, ts, limits[i], states[i], i, b[i], c[i]);
    } else {
      BlocksTail(sc, ts, limits, BlockDecode(sc, ts, limits[n], states[n], n, b[n]).st, b, c[n := x], n + 1);
    }
  }

  lemma {:induction false} BlocksTail(sc: Scan, ts: Tables, limits: seq<nat>, st: DecState, b: seq<Block>,
                                      c: seq<Block>, i: nat)
    requires IsScan(sc) && GoodTables(ts) && IsDecState(st) && |b| == |c| == |limits| == |sc.membership| && i <= |b|
    requires forall k :: i <= k < |b| ==> c[k] == b[k]
    ensures BlocksDecode(sc, ts, limits, st, i, c) == BlocksDecode(sc, ts, limits, st, i, b)
    decreases |b| - i
  {
    hide BlockDecode, IsScan, GoodTables;
    if i < |b| {
      BlocksTail(sc, ts, limits, BlockDecode(sc, ts, limits[i], st, i, b[i]).st, b, c, i + 1);
    }
  }

  /** From state st0 and blocks c0 the decoder got to st1 and c1, or has to wait and left c1, which decodes
      to the same. */
  ghost predicate BlocksGot(sc: Scan, ts: Tables, limits: seq<nat>, st0: DecState, c0: seq<Block>, ok: bool,
                            st1: DecState,
                            c1: seq<Block>)
  {
    && IsScan(sc) && GoodTables(ts) && IsDecState(st0) && |c0| == |c1| == |limits| == |sc.membership|
    && (ok ==> McuResult(st1, c1) == BlocksDecode(sc, ts, limits, st0, 0, c0))
    && BlocksDecode(sc, ts, limits, st0, 0, c1) == BlocksDecode(sc, ts, limits, st0, 0, c0)
  }

  /** Block i of the MCU. */
  method GetOneOf(br: BitReader, sc: Scan, ts: Tables, ds: seq<DDerived>, limit: nat, st: seq<int>, i: nat,
                  blocks: seq<array<JCOEF>>, ghost run: nat, ghost m: Outset)
    returns (ok: bool, st': seq<int>, ghost x: Block)
    requires Since(br, m) && IsScan(sc) && !ModeOf(sc).AcFirst? && !ModeOf(sc).AcRefine? && GoodTables(ts) &&
             DecodesWith(ts, ds)
    requires |st| == MAX_COMPS_IN_SCAN && AreBlocks(blocks) && i < |blocks| == |sc.membership|
    modifies br`pos, br`buf, br`left, br`ahead, br`unreadMarker, br`insufficientData, blocks[i]
    ensures Contents(blocks) == old(Contents(blocks))[i := x]
    ensures ok ==> Since(br, m) && |st'| == MAX_COMPS_IN_SCAN
    ensures ok ==> McuResult(DecState(st', run, br.ahead), [x]) ==
                   BlockDecode(sc, ts, limit, DecState(st, run, old(br.ahead)), i, old(Contents(blocks))[i])
    ensures !ok ==> Waits(br, m)
    ensures Alike(sc, ts, limit, DecState(st, run, old(br.ahead)), i, old(Contents(blocks))[i], x)
  {
    hide Since, Waits, IsScan, BlockDecode, GoodTables, DecodesWith;
    ok, st' := GetBlock(br, sc, ts, ds, limit, st, i, blocks[i], run, m);
    x := blocks[i][..];
  }

  method GetBlocks(br: BitReader, sc: Scan, ts: Tables, ds: seq<DDerived>, limits: seq<nat>, st: seq<int>,
                   blocks: seq<array<JCOEF>>, ghost run: nat, ghost m: Outset)
    returns (ok: bool, st': seq<int>)
    requires Since(br, m) && IsScan(sc) && !ModeOf(sc).AcFirst? && !ModeOf(sc).AcRefine? && GoodTables(ts) &&
             DecodesWith(ts, ds)
    requires |st| == MAX_COMPS_IN_SCAN && AreBlocks(blocks) && |blocks| == |limits| == |sc.membership|
    modifies br`pos, br`buf, br`left, br`ahead, br`unreadMarker, br`insufficientData, blocks
    ensures if ok then Since(br, m) && |st'| == MAX_COMPS_IN_SCAN else Waits(br, m)
    ensures BlocksGot(sc, ts, limits, DecState(st, run, old(br.ahead)), old(Contents(blocks)), ok,
                      DecState(st', run, br.ahead), Contents(blocks))
  {
    hide Since, Waits, IsScan, BlockDecode, GoodTables, DecodesWith, BlocksDecode, Passes, AreBlocks, Alike;
    ScanModes(sc);
    BlockLengths(blocks);
    ghost var c0, now := Contents(blocks), Contents(blocks);
    ghost var states := [DecState(st, run, br.ahead)];
    PassesNone(sc, ts, limits, states[0], c0);
    st' := st;
    var i := 0;
    while i < |blocks|
      invariant i <= |blocks| && Since(br, m) && |st'| == MAX_COMPS_IN_SCAN && now == Contents(blocks) &&
                |states| == i + 1
      invariant Passes(sc, ts, limits, states, c0, now, i) && states[0] == DecState(st, run, old(br.ahead))
      invariant states[i] == DecState(st', run, br.ahead) && forall k :: i <= k < |blocks| ==> now[k] == c0[k]
      decreases |blocks| - i
    {
      var p;
      ghost var x;
      ok, p, x := GetOneOf(br, sc, ts, ds, limits[i], st', i, blocks, run, m);
      BlocksAgain(sc, ts, limits, states, c0, now, 0, i, x);
      if !ok {
        return;
      }
      PassesMore(sc, ts, limits, states, c0, now, i, DecState(p, run, br.ahead), x);
      states, now := states + [DecState(p, run, br.ahead)], now[i := x];
      st' := p;
      i := i + 1;
    }
    BlocksDone(sc, ts, limits, states, c0, now, 0);
    assert now[0..] == now;
    ok := true;
  }

  lemma BlockLengths(blocks: seq<array<JCOEF>>)
    requires AreBlocks(blocks)
    ensures forall i :: 0 <= i < |blocks| ==> blocks[i].Length == 64
  {
  }

  lemma ScanModes(sc: Scan)
    requires IsScan(sc)
    ensures |sc.membership| > 0
  {
  }

  lemma {:induction false} BlocksDone(sc: Scan, ts: Tables, limits: seq<nat>, states: seq<DecState>, b: seq<Block>,
                                      c: seq<Block>, i: nat)
    requires IsScan(sc) && GoodTables(ts) && |b| == |c| == |limits| == |sc.membership| && i <= |b|
    requires Passes(sc, ts, limits, states, b, c, |b|)
    ensures IsDecState(states[i]) && BlocksDecode(sc, ts, limits, states[i], i, b) == McuResult(states[|b|], c[i..])
    ensures BlocksDecode(sc, ts, limits, states[i], i, c) == BlocksDecode(sc, ts, limits, states[i], i, b)
    decreases |b| - i
  {
    hide BlockDecode, IsScan, GoodTables;
    if i < |b| {
      BlocksDone(sc, ts, limits, states, b, c, i + 1);
      assert c[i..] == [c[i]] + c[i + 1..];
      assert Alike(sc, ts, limits[i], states[i], i, b[i], c[i]);
    }
  }
}
