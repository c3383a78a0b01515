// A refinement scan may suspend in the middle of a block. New coefficients are then undone, corrections
// are not; decoding the block again from there gives what an uninterrupted decoder gets.
module HuffResume {
  import opened Powers
  import opened Coefs
  import opened HuffCode
  import opened HuffBits
  import opened HuffBlock
  import opened HuffSpectral
  import opened HuffRefineDecode

  /** b is what a suspension may leave of b0 on the way to g: some nonzero coefficients are corrected. */
  ghost predicate Partial(b0: Block, b: Block, g: Block) {
    forall p :: 0 <= p < 64 ==> b[p] == b0[p] || (b0[p] != 0 && b[p] == g[p])
  }

  // The largest point transform the decoder accepts.
  const MAX_AL := 13

  lemma ParityFlips(c: int, p: nat, d: nat)
    requires p > 0 && d > 0 && p * (2 * d) == 0x1_0000
    ensures (c + p) / p % 2 != c / p % 2 && (c - p) / p % 2 != c / p % 2
    ensures (c + p - 0x1_0000) / p % 2 != c / p % 2 && (c - p + 0x1_0000) / p % 2 != c / p % 2
  {
    var q, r := c / p, c % p;
    assert c == q * p + r;
    MulAdd(q, 1, p);
    MulAdd(q + 1, 2 * d, p);
    MulAdd(q - 1, 2 * d, p);
    DivModUnique(c + p, p, q + 1, r);
    DivModUnique(c - p, p, q - 1, r);
    DivModUnique(c + p - 0x1_0000, p, q + 1 - 2 * d, r);
    DivModUnique(c - p + 0x1_0000, p, q - 1 + 2 * d, r);
  }

  lemma CorrectByTwice(c: JCOEF, bit: nat, p: nat, d: nat)
    requires p > 0 && d > 0 && p * (2 * d) == 0x1_0000 && p <= 0x2000
    ensures CorrectBy(CorrectBy(c, bit, p), bit, p) == CorrectBy(c, bit, p)
    ensures c != 0 ==> CorrectBy(c, bit, p) != 0
  {
    ParityFlips(c, p, d);
    StoreSum(c + p);
    StoreSum(c - p);
  }

  lemma StoreSum(v: int)
    requires -0x1_0000 <= v < 0x1_0000
    ensures ToCoef(v) == if v >= 0x8000 then v - 0x1_0000 else if v < -0x8000 then v + 0x1_0000 else v
  {
  }

  /** The bit test makes a correction idempotent, for either sign; a corrected coefficient stays nonzero. */
  lemma CorrectTwice(c: JCOEF, bit: nat, al: nat)
    requires al <= MAX_AL
    ensures Correct(Correct(c, bit, al), bit, al) == Correct(c, bit, al)
    ensures c != 0 ==> Correct(c, bit, al) != 0
  {
    hide Pow2, CorrectBy;
    Pow2Add(al, 16 - al);
    Pow2Add(1, 15 - al);
    Pow2Values();
    Pow2Monotone(al, 13);
    Pow2Thirteen();
    CorrectByTwice(c, bit, Pow2(al), Pow2(15 - al));
  }

  lemma Pow2Thirteen()
    ensures Pow2(13) == 0x2000
  {
    Pow2Add(8, 5);
    Pow2Values();
  }

  // ----- what each part of the decoder changes

  /** Advancing changes only nonzero coefficients it passes, and leaves them nonzero. */
  lemma {:induction false} AdvanceKeeps(order: seq<nat>, s: seq<bool>, b: Block, k: nat, r: nat, se: nat, al: nat)
    requires IsOrder(order) && se < 64 && al <= MAX_AL
    ensures var a := Advance(order, s, b, k, r, se, al);
            && (a.k > se || (a.b[order[a.k]] == 0 && a.k <= se))
            && (forall i :: 0 <= i < 64 && (i < k || i >= a.k) ==> a.b[order[i]] == b[order[i]])
            && forall p :: 0 <= p < 64 ==> (a.b[p] != 0 <==> b[p] != 0)
    decreases if k <= se then se - k + 1 else 0
  {
    hide Correct, Peek, Rest;
    if k <= se {
      var p := order[k];
      if b[p] != 0 {
        CorrectTwice(b[p], Peek(s, 1), al);
        AdvanceKeeps(order, Rest(s, 1), b[p := Correct(b[p], Peek(s, 1), al)], k + 1, r, se, al);
      } else if r > 0 {
        AdvanceKeeps(order, s, b, k + 1, r - 1, se, al);
      }
    }
  }

  /** Correcting the rest of a band is advancing past all of it. */
  lemma {:induction false} CorrectionsAdvance(order: seq<nat>, s: seq<bool>, b: Block, k: nat, r: nat, se: nat, al: nat)
    requires IsOrder(order) && se < 64 && r > se + 1 - k
    ensures var a := Advance(order, s, b, k, r, se, al);
            Corrections(order, s, b, k, se, al) == Decoded(a.b, a.s) && a.k > se
    decreases if k <= se then se - k + 1 else 0
  {
    hide Correct, Peek, Rest;
    if k <= se {
      var p := order[k];
      if b[p] != 0 {
        CorrectionsAdvance(order, Rest(s, 1), b[p := Correct(b[p], Peek(s, 1), al)], k + 1, r, se, al);
      } else {
        CorrectionsAdvance(order, s, b, k + 1, r - 1, se, al);
      }
    }
  }

  /** What a block comes to: what is before index k stays, and nonzero coefficients stay nonzero. */
  lemma {:induction false} RefineKeeps(t: HuffTbl, order: seq<nat>, s: seq<bool>, b: Block, k: nat, se: nat, al: nat)
    requires Legal(t.bits) && IsOrder(order) && se < 64 && al <= MAX_AL
    ensures var d := RefineDecode(t, order, s, b, k, se, al);
            && (forall i :: 0 <= i < 64 && (i < k || i > se) ==> d.b[order[i]] == b[order[i]])
            && forall p :: 0 <= p < 64 && b[p] != 0 ==> d.b[p] != 0
    decreases if k <= se then se - k + 1 else 0
  {
    hide Advance, SymAt, AfterSym, Rest, RunAt, RunOf, SizeOf, Legal, NewValue, ToCoef, Peek, Corrections;
    if k <= se {
      var sym, s1 := SymAt(t, s), AfterSym(t, s);
      var r, size := RunOf(sym), SizeOf(sym);
      if size != 0 {
        AdvanceKeeps(order, Rest(s1, 1), b, k, r, se, al);
        AdvanceInBand(order, Rest(s1, 1), b, k, r, se, al);
        var a := Advance(order, Rest(s1, 1), b, k, r, se, al);
        if a.k <= se {
          NewNonzero(s1, al);
          RefineKeeps(t, order, a.s, a.b[order[a.k] := ToCoef(NewValue(s1, al))], a.k + 1, se, al);
        }
      } else if r == 15 {
        AdvanceKeeps(order, s1, b, k, 15, se, al);
        AdvanceInBand(order, s1, b, k, 15, se, al);
        var a := Advance(order, s1, b, k, 15, se, al);
        RefineKeeps(t, order, a.s, a.b, a.k + 1, se, al);
      } else {
        CorrectionsAdvance(order, Rest(s1, r), b, k, 66, se, al);
        AdvanceKeeps(order, Rest(s1, r), b, k, 66, se, al);
        AdvanceInBand(order, Rest(s1, r), b, k, 66, se, al);
      }
    }
  }

  lemma NewNonzero(s: seq<bool>, al: nat)
    requires al <= MAX_AL
    ensures ToCoef(NewValue(s, al)) != 0
  {
    hide Pow2;
    Pow2Monotone(al, 13);
    Pow2Thirteen();
    StoreSum(NewValue(s, al));
  }

  /** Advancing stays in the band. */
  lemma {:induction false} AdvanceInBand(order: seq<nat>, s: seq<bool>, b: Block, k: nat, r: nat, se: nat, al: nat)
    requires IsOrder(order) && se < 64
    ensures var a := Advance(order, s, b, k, r, se, al); a.k <= se + 1 || a.k == k
    decreases if k <= se then se - k + 1 else 0
  {
    hide Correct, Peek, Rest;
    if k <= se {
      var p := order[k];
      if b[p] != 0 {
        AdvanceInBand(order, Rest(s, 1), b[p := Correct(b[p], Peek(s, 1), al)], k + 1, r, se, al);
      } else if r > 0 {
        AdvanceInBand(order, s, b, k + 1, r - 1, se, al);
      }
    }
  }

  // ----- the same result from a half-done block

  /** Advancing over a half-done block moves and reads the same, and completes what it passes. */
  lemma {:induction false} AdvanceSame(order: seq<nat>, s: seq<bool>, b0: Block, b: Block, k: nat, r: nat, se: nat,
                                       al: nat, g: Block)
    requires IsOrder(order) && se < 64 && al <= MAX_AL && Partial(b0, b, g)
    requires forall p :: 0 <= p < 64 && b0[p] != 0 ==> g[p] != 0
    requires var a := Advance(order, s, b0, k, r, se, al);
             forall i :: k <= i < a.k && i <= se ==> g[order[i]] == a.b[order[i]]
    ensures var a, c := Advance(order, s, b0, k, r, se, al), Advance(order, s, b, k, r, se, al);
            c.s == a.s && c.k == a.k && Partial(a.b, c.b, g)
    decreases if k <= se then se - k + 1 else 0
  {
    hide Correct, Peek, Rest;
    if k <= se {
      var p := order[k];
      var bit := Peek(s, 1);
      if b0[p] != 0 {
        var c0, c := Correct(b0[p], bit, al), Correct(b[p], bit, al);
        CorrectTwice(b0[p], bit, al);
        AdvanceKeeps(order, Rest(s, 1), b0[p := c0], k + 1, r, se, al);
        assert g[p] == c0;
        AdvanceSame(order, Rest(s, 1), b0[p := c0], b[p := c], k + 1, r, se, al, g);
      } else if r > 0 {
        AdvanceSame(order, s, b0, b, k + 1, r - 1, se, al, g);
      }
    }
  }

  /** Decoding a half-done block again gives the block, the bits left and the run that decoding it
      without a suspension gives, for every bit string. */
  lemma {:induction false} ResumeSame(t: HuffTbl, order: seq<nat>, s: seq<bool>, b0: Block, b: Block, k: nat,
                                      se: nat, al: nat)
    requires Legal(t.bits) && IsOrder(order) && se < 64 && al <= MAX_AL
    requires Partial(b0, b, RefineDecode(t, order, s, b0, k, se, al).b)
    ensures RefineDecode(t, order, s, b, k, se, al) == RefineDecode(t, order, s, b0, k, se, al)
    decreases if k <= se then se - k + 1 else 0
  {
    hide Advance, SymAt, AfterSym, Rest, RunAt, RunOf, SizeOf, Legal, NewValue, ToCoef, Peek, Corrections;
    var g := RefineDecode(t, order, s, b0, k, se, al).b;
    RefineKeeps(t, order, s, b0, k, se, al);
    if k > se {
      assert b == b0;
    } else {
      var sym, s1 := SymAt(t, s), AfterSym(t, s);
      var r, size := RunOf(sym), SizeOf(sym);
      if size != 0 {
        AdvanceKeeps(order, Rest(s1, 1), b0, k, r, se, al);
        var a := Advance(order, Rest(s1, 1), b0, k, r, se, al);
        if a.k > se {
          AdvanceSame(order, Rest(s1, 1), b0, b, k, r, se, al, g);
          assert Advance(order, Rest(s1, 1), b, k, r, se, al).b == a.b;
        } else {
          var v := ToCoef(NewValue(s1, al));
          RefineKeeps(t, order, a.s, a.b[order[a.k] := v], a.k + 1, se, al);
          AdvanceSame(order, Rest(s1, 1), b0, b, k, r, se, al, g);
          var c := Advance(order, Rest(s1, 1), b, k, r, se, al);
          ResumeSame(t, order, a.s, a.b[order[a.k] := v], c.b[order[a.k] := v], a.k + 1, se, al);
        }
      } else if r == 15 {
        AdvanceKeeps(order, s1, b0, k, 15, se, al);
        var a := Advance(order, s1, b0, k, 15, se, al);
        RefineKeeps(t, order, a.s, a.b, a.k + 1, se, al);
        AdvanceSame(order, s1, b0, b, k, 15, se, al, g);
        var c := Advance(order, s1, b, k, 15, se, al);
        ResumeSame(t, order, a.s, a.b, c.b, a.k + 1, se, al);
      } else {
        CorrectionsAdvance(order, Rest(s1, r), b0, k, 66, se, al);
        CorrectionsAdvance(order, Rest(s1, r), b, k, 66, se, al);
        AdvanceSame(order, Rest(s1, r), b0, b, k, 66, se, al, g);
        assert Advance(order, Rest(s1, r), b, k, 66, se, al).b == g;
      }
    }
  }

  /** The same for a block inside a run. */
  lemma ResumeRunSame(order: seq<nat>, s: seq<bool>, b0: Block, b: Block, k: nat, se: nat, al: nat)
    requires IsOrder(order) && se < 64 && al <= MAX_AL
    requires Partial(b0, b, Corrections(order, s, b0, k, se, al).b)
    ensures Corrections(order, s, b, k, se, al) == Corrections(order, s, b0, k, se, al)
  {
    hide Advance, Peek, Corrections;
    var g := Corrections(order, s, b0, k, se, al).b;
    CorrectionsAdvance(order, s, b0, k, 66, se, al);
    CorrectionsAdvance(order, s, b, k, 66, se, al);
    AdvanceKeeps(order, s, b0, k, 66, se, al);
    AdvanceSame(order, s, b0, b, k, 66, se, al, g);
    assert Advance(order, s, b, k, 66, se, al).b == g;
  }

}
