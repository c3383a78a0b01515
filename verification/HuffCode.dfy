// Canonical Huffman codes (Annex C of T.81): the code each symbol gets from the counts of codes per
// length, and the search a decoder makes for it.
module HuffCode {
  import opened Powers

  /** Codes per length (index 0 unused) and symbols in order of increasing code length. */
  datatype RawTbl = HuffTbl(bits: seq<nat>, vals: seq<nat>)

  type HuffTbl = t: RawTbl |
    |t.bits| == 17 && |t.vals| == 256 && forall i :: 0 <= i < 256 ==> t.vals[i] < 256
    witness HuffTbl(seq(17, _ => 0), seq(256, _ => 0))

  /** The index of the first symbol of length l: how many codes are shorter. */
  function Start(bits: seq<nat>, l: nat): nat
    requires |bits| == 17 && 1 <= l <= 17
  {
    if l == 1 then 0 else Start(bits, l - 1) + bits[l - 1]
  }

  /** The smallest code of length l. */
  function First(bits: seq<nat>, l: nat): nat
    requires |bits| == 17 && 1 <= l <= 17
  {
    if l == 1 then 0 else 2 * (First(bits, l - 1) + bits[l - 1])
  }

  /** The codes of every length fit, and none of them is all ones. */
  predicate Legal(bits: seq<nat>)
    requires |bits| == 17
  {
    && Start(bits, 17) <= 256
    && forall l :: 1 <= l <= 16 ==> First(bits, l) + bits[l] < Pow2(l)
  }

  /** Symbol index p has a code of length l. */
  predicate HasLength(bits: seq<nat>, p: nat, l: nat)
    requires |bits| == 17
  {
    1 <= l <= 16 && Start(bits, l) <= p < Start(bits, l) + bits[l]
  }

  /** The code of symbol index p. */
  function Code(bits: seq<nat>, p: nat, l: nat): nat
    requires |bits| == 17 && HasLength(bits, p, l)
  {
    First(bits, l) + (p - Start(bits, l))
  }

  lemma {:induction false} StartMonotone(bits: seq<nat>, l: nat, m: nat)
    requires |bits| == 17 && 1 <= l <= m <= 17
    ensures Start(bits, l) <= Start(bits, m)
  {
    if l < m {
      StartMonotone(bits, l, m - 1);
    }
  }

  lemma LengthIsUnique(bits: seq<nat>, p: nat, l: nat, m: nat)
    requires |bits| == 17 && HasLength(bits, p, l) && HasLength(bits, p, m)
    ensures l == m
  {
    if l < m {
      StartMonotone(bits, l + 1, m);
    } else if m < l {
      StartMonotone(bits, m + 1, l);
    }
  }

  /** The length of symbol index p. */
  function LengthFrom(bits: seq<nat>, p: nat, l: nat): (r: nat)
    requires |bits| == 17 && 1 <= l <= 17 && Start(bits, l) <= p < Start(bits, 17)
    ensures l <= r && HasLength(bits, p, r)
    decreases 17 - l
  {
    if p < Start(bits, l) + bits[l] then l else LengthFrom(bits, p, l + 1)
  }

  function Length(bits: seq<nat>, p: nat): (r: nat)
    requires |bits| == 17 && p < Start(bits, 17)
    ensures HasLength(bits, p, r)
  {
    LengthFrom(bits, p, 1)
  }

  /** Longer codes lie beyond every shorter code, at any precision between. */
  lemma {:induction false} FirstGrows(bits: seq<nat>, l: nat, m: nat)
    requires |bits| == 17 && 1 <= l < m <= 17
    ensures First(bits, m) >= (First(bits, l) + bits[l]) * Pow2(m - l)
  {
    if m == l + 1 {
      assert Pow2(1) == 2;
    } else {
      FirstGrows(bits, l, m - 1);
      MulAssociate(First(bits, l) + bits[l], 2, Pow2(m - 1 - l));
    }
  }

  /** No code is a prefix of another (and no two are equal). */
  lemma PrefixFree(bits: seq<nat>, p: nat, q: nat, l: nat, m: nat)
    requires |bits| == 17 && HasLength(bits, p, l) && HasLength(bits, q, m) && p != q && l <= m
    ensures Code(bits, q, m) / Pow2(m - l) != Code(bits, p, l)
  {
    if l < m {
      FirstGrows(bits, l, m);
      var x, d := First(bits, l) + bits[l], Pow2(m - l);
      QuotientAtLeast(Code(bits, q, m), d, x);
    } else {
      assert Pow2(0) == 1;
    }
  }

  // ----- bit strings

  /** The i-th bit of s, which goes on with zeros. */
  function Bit(s: seq<bool>, i: nat): nat {
    if i < |s| && s[i] then 1 else 0
  }

  /** The first l bits of s as a number. */
  function Peek(s: seq<bool>, l: nat): nat {
    if l == 0 then 0 else 2 * Peek(s, l - 1) + Bit(s, l - 1)
  }

  lemma {:induction false} PeekBound(s: seq<bool>, l: nat)
    ensures Peek(s, l) < Pow2(l)
  {
    if l > 0 {
      PeekBound(s, l - 1);
    }
  }

  lemma {:induction false} PeekPrefix(s: seq<bool>, l: nat, m: nat)
    requires l <= m
    ensures Peek(s, m) / Pow2(m - l) == Peek(s, l)
    ensures Peek(s, l) * Pow2(m - l) <= Peek(s, m) < (Peek(s, l) + 1) * Pow2(m - l)
    decreases m
  {
    if l < m {
      PeekPrefix(s, l, m - 1);
      var x, d, b := Peek(s, l), Pow2(m - 1 - l), Bit(s, m - 1);
      MulAssociate(x, 2, d);
      MulAssociate(x + 1, 2, d);
      MulAdd(x, 1, 2 * d);
      DivModUnique(Peek(s, m), 2 * d, x, Peek(s, m) - x * (2 * d));
    } else {
      assert Pow2(0) == 1;
      DivModUnique(Peek(s, m), 1, Peek(s, l), 0);
    }
  }

  // ----- the decoder's tables and search (Figures F.15 and F.16 of T.81)

  const SENTINEL := 0xFFFFF

  function MaxCode(bits: seq<nat>, l: nat): int
    requires |bits| == 17 && 1 <= l <= 17
  {
    if l == 17 then SENTINEL
    else if bits[l] == 0 then -1
    else First(bits, l) + bits[l] - 1
  }

  function ValOffset(bits: seq<nat>, l: nat): int
    requires |bits| == 17 && 1 <= l <= 16
  {
    Start(bits, l) - First(bits, l)
  }

  /** Lengthen the candidate code until it is at most the largest code of its length. */
  function Search(bits: seq<nat>, s: seq<bool>, l: nat): (r: nat)
    requires |bits| == 17 && 1 <= l <= 17
    ensures l <= r <= 17 && (r < 17 ==> Peek(s, r) <= MaxCode(bits, r))
    ensures forall k :: l <= k < r ==> Peek(s, k) > MaxCode(bits, k)
    decreases 17 - l
  {
    if l == 17 || Peek(s, l) <= MaxCode(bits, l) then l else Search(bits, s, l + 1)
  }

  /** While no code has matched, the candidate is not below the codes of its length. */
  lemma {:induction false} CandidateBound(bits: seq<nat>, s: seq<bool>, l: nat)
    requires |bits| == 17 && 1 <= l <= 17
    requires forall k :: 1 <= k < l ==> Peek(s, k) > MaxCode(bits, k)
    ensures Peek(s, l) >= First(bits, l)
  {
    if l > 1 {
      CandidateBound(bits, s, l - 1);
    }
  }

  /** The sentinel stops the search at 17 bits on any input. */
  lemma SentinelStops(s: seq<bool>)
    ensures Peek(s, 17) <= SENTINEL
  {
    PeekBound(s, 17);
    Pow2Values();
  }

  /** A match names a symbol of the table. */
  lemma SearchIndex(bits: seq<nat>, s: seq<bool>)
    requires |bits| == 17 && Search(bits, s, 1) <= 16
    ensures var l := Search(bits, s, 1);
            Peek(s, l) + ValOffset(bits, l) >= 0 && HasLength(bits, Peek(s, l) + ValOffset(bits, l), l)
            && Code(bits, Peek(s, l) + ValOffset(bits, l), l) == Peek(s, l)
  {
    var l := Search(bits, s, 1);
    CandidateBound(bits, s, l);
  }

  /** The search inverts the encoder's codes: on a string that starts with the code of symbol index p
      it stops at that code. */
  lemma SearchFindsCode(bits: seq<nat>, s: seq<bool>, p: nat, l: nat)
    requires |bits| == 17 && HasLength(bits, p, l) && Peek(s, l) == Code(bits, p, l)
    ensures Search(bits, s, 1) == l && Peek(s, l) + ValOffset(bits, l) == p
  {
    var r := Search(bits, s, 1);
    if r < l {
      SearchIndex(bits, s);
      PeekPrefix(s, r, l);
      var q := Peek(s, r) + ValOffset(bits, r);
      if p == q {
        LengthIsUnique(bits, p, l, r);
      }
      PrefixFree(bits, q, p, r, l);
    }
  }

  // ----- the lookahead table

  const HUFF_LOOKAHEAD := 8

  /** Some code of at most eight bits starts the eight bits of look. */
  predicate ShortCode(bits: seq<nat>, look: nat, p: nat, l: nat)
    requires |bits| == 17
  {
    l <= HUFF_LOOKAHEAD && HasLength(bits, p, l) && look / Pow2(HUFF_LOOKAHEAD - l) == Code(bits, p, l)
  }

  /** A lookahead hit is what the bit-by-bit search finds. */
  lemma LookaheadHit(bits: seq<nat>, s: seq<bool>, p: nat, l: nat)
    requires |bits| == 17 && ShortCode(bits, Peek(s, HUFF_LOOKAHEAD), p, l)
    ensures Search(bits, s, 1) == l && Peek(s, l) + ValOffset(bits, l) == p
  {
    PeekPrefix(s, l, HUFF_LOOKAHEAD);
    SearchFindsCode(bits, s, p, l);
  }

  lemma ShortMatch(bits: seq<nat>, s: seq<bool>)
    requires |bits| == 17 && Search(bits, s, 1) <= HUFF_LOOKAHEAD
    ensures var r := Search(bits, s, 1);
            Peek(s, r) + ValOffset(bits, r) >= 0 &&
            ShortCode(bits, Peek(s, HUFF_LOOKAHEAD), Peek(s, r) + ValOffset(bits, r), r)
  {
    SearchIndex(bits, s);
    PeekPrefix(s, Search(bits, s, 1), HUFF_LOOKAHEAD);
  }

  /** After a lookahead miss the search may as well start at nine bits. */
  lemma LookaheadMiss(bits: seq<nat>, s: seq<bool>)
    requires |bits| == 17
    requires forall p, l :: !ShortCode(bits, Peek(s, HUFF_LOOKAHEAD), p, l)
    ensures Search(bits, s, 1) == Search(bits, s, HUFF_LOOKAHEAD + 1)
  {
    if Search(bits, s, 1) <= HUFF_LOOKAHEAD {
      ShortMatch(bits, s);
      assert false;
    }
    SearchFrom(bits, s, 1, HUFF_LOOKAHEAD + 1);
  }

  lemma {:induction false} SearchFrom(bits: seq<nat>, s: seq<bool>, l: nat, m: nat)
    requires |bits| == 17 && 1 <= l <= m <= 17 && m <= Search(bits, s, l)
    ensures Search(bits, s, l) == Search(bits, s, m)
    decreases m - l
  {
    if l < m {
      SearchFrom(bits, s, l + 1, m);
    }
  }
}
