// Deriving the encoder's and the decoder's working tables from a Huffman table, with the validity
// checks that reject an illegal one.
module HuffTables {
  import opened Powers
  import opened HuffCode

  datatype Result<T> = Ok(value: T) | BadTable

  /** Code and size per symbol; size 0 marks a symbol without a code. */
  datatype CDerived = CDerived(ehufco: seq<nat>, ehufsi: seq<nat>)

  datatype DDerived = DDerived(maxcode: seq<int>, valoffset: seq<int>, lookNbits: seq<nat>, lookSym: seq<nat>,
      pub: HuffTbl)

  function NumSymbols(t: HuffTbl): nat {
    Start(t.bits, 17)
  }

  // ----- Figures C.1 and C.2

  /** The huffsize array: the length of each symbol, then 0. */
  ghost predicate IsSizes(bits: seq<nat>, sizes: seq<nat>)
    requires |bits| == 17
  {
    && |sizes| == 257 && Start(bits, 17) <= 256 && sizes[Start(bits, 17)] == 0
    && forall p :: 0 <= p < Start(bits, 17) ==> sizes[p] == Length(bits, p)
  }

  ghost predicate IsCodes(bits: seq<nat>, codes: seq<nat>, n: nat)
    requires |bits| == 17 && n <= Start(bits, 17)
  {
    && |codes| == 257 && Start(bits, 17) <= 256
    && forall p :: 0 <= p < n ==> codes[p] == Code(bits, p, Length(bits, p))
  }

  method MakeSizes(bits: seq<nat>) returns (ok: bool, huffsize: array<nat>, lastp: nat)
    requires |bits| == 17
    ensures fresh(huffsize) && huffsize.Length == 257
    ensures ok <==> Start(bits, 17) <= 256
    ensures ok ==> IsSizes(bits, huffsize[..]) && lastp == Start(bits, 17)
  {
    huffsize := new nat[257](_ => 0);
    lastp := 0;
    for l := 1 to 17
      invariant huffsize.Length == 257 && lastp == Start(bits, l) <= 256
      invariant forall p, m :: 0 <= p < lastp && HasLength(bits, p, m) ==> huffsize[p] == m
    {
      StartMonotone(bits, l + 1, 17);
      if lastp + bits[l] > 256 {
        return false, huffsize, 0;
      }
      var i := bits[l];
      while i > 0
        invariant huffsize.Length == 257 && lastp == Start(bits, l) + (bits[l] - i) && i <= bits[l]
        invariant forall p, m :: 0 <= p < lastp && HasLength(bits, p, m) ==> huffsize[p] == m
      {
        forall m | HasLength(bits, lastp, m)
          ensures m == l
        {
          LengthIsUnique(bits, lastp, l, m);
        }
        huffsize[lastp] := l;
        lastp := lastp + 1;
        i := i - 1;
      }
    }
    huffsize[lastp] := 0;
    ok := true;
  }

  lemma {:induction false} LeadingZeros(bits: seq<nat>, l: nat)
    requires |bits| == 17 && 1 <= l <= 17 && Start(bits, l) == 0
    ensures First(bits, l) == 0
  {
    if l > 1 {
      LeadingZeros(bits, l - 1);
    }
  }

  /** With no code longer than l - 1, legality up to there is legality. */
  lemma {:induction false} NoLongerCodes(bits: seq<nat>, l: nat, m: nat)
    requires |bits| == 17 && 1 <= l <= m <= 17 && Start(bits, l) == Start(bits, 17)
    requires l > 1 ==> First(bits, l - 1) + bits[l - 1] < Pow2(l - 1)
    ensures m > 1 ==> First(bits, m - 1) + bits[m - 1] < Pow2(m - 1)
  {
    if l < m {
      NoLongerCodes(bits, l, m - 1);
      StartMonotone(bits, l, m - 1);
      StartMonotone(bits, m, 17);
    }
  }

  lemma SizeReached(bits: seq<nat>, sizes: seq<nat>, p: nat, si: nat)
    requires |bits| == 17 && IsSizes(bits, sizes) && 1 <= si <= 17
    requires p == Start(bits, si) <= Start(bits, 17) && sizes[p] != 0
    ensures p < Start(bits, 17) && si <= sizes[p] <= 16
  {
    if sizes[p] < si {
      StartMonotone(bits, sizes[p] + 1, si);
    }
  }

  lemma SizeMatches(bits: seq<nat>, sizes: seq<nat>, p: nat, si: nat)
    requires |bits| == 17 && IsSizes(bits, sizes) && 1 <= si <= 16
    requires p <= Start(bits, 17) && sizes[p] == si
    ensures p < Start(bits, si + 1) && p < Start(bits, 17) && HasLength(bits, p, si) && Length(bits, p) == si
  {
  }

  lemma SizeDone(bits: seq<nat>, sizes: seq<nat>, p: nat, si: nat)
    requires |bits| == 17 && IsSizes(bits, sizes) && 1 <= si <= 16
    requires Start(bits, si) <= p <= Start(bits, si + 1)
    requires p < 257 && sizes[p] != si
    ensures p == Start(bits, si + 1) <= Start(bits, 17)
  {
    StartMonotone(bits, si + 1, 17);
    if p < Start(bits, si + 1) {
      LengthIsUnique(bits, p, si, Length(bits, p));
    }
  }

  lemma SizesFacts(bits: seq<nat>, sizes: seq<nat>)
    requires |bits| == 17 && IsSizes(bits, sizes)
    ensures |sizes| == 257 && Start(bits, 17) <= 256 && sizes[Start(bits, 17)] == 0
    ensures sizes[0] == 0 <==> Start(bits, 17) == 0
    ensures sizes[0] != 0 ==> 1 <= sizes[0] <= 16 && Start(bits, sizes[0]) == 0
    ensures forall p :: 0 <= p < Start(bits, 17) ==> sizes[p] != 0
  {
  }

  lemma NoneShorter(bits: seq<nat>, si: nat)
    requires |bits| == 17 && 1 <= si <= 17 && Start(bits, si) == 0
    ensures First(bits, si) == 0
    ensures forall l :: 1 <= l < si ==> First(bits, l) + bits[l] < Pow2(l)
  {
    LeadingZeros(bits, si);
    forall l | 1 <= l < si
      ensures First(bits, l) + bits[l] < Pow2(l)
    {
      StartMonotone(bits, l + 1, si);
      LeadingZeros(bits, l);
    }
  }

  lemma ExtendCodes(bits: seq<nat>, codes: seq<nat>, p: nat, si: nat)
    requires |bits| == 17 && 1 <= si <= 16 && p < Start(bits, 17)
    requires IsCodes(bits, codes, p) && HasLength(bits, p, si)
    ensures |codes| == 257 && p < 257
    ensures IsCodes(bits, codes[p := First(bits, si) + (p - Start(bits, si))], p + 1)
  {
    LengthIsUnique(bits, p, si, Length(bits, p));
  }

  method MakeCodes(bits: seq<nat>, huffsize: array<nat>) returns (ok: bool, huffcode: array<nat>)
    requires |bits| == 17 && huffsize.Length == 257 && IsSizes(bits, huffsize[..])
    ensures fresh(huffcode) && huffcode.Length == 257
    ensures ok <==> Legal(bits)
    ensures ok ==> IsCodes(bits, huffcode[..], Start(bits, 17))
  {
    hide IsSizes, HasLength, Length, Code, IsCodes, Pow2, First, Start, Legal;
    ghost var n, sizes := Start(bits, 17), huffsize[..];
    huffcode := new nat[257](_ => 0);
    SizesFacts(bits, sizes);
    var code: nat, p: nat, si: nat := 0, 0, huffsize[0];
    assert sizes[0] == si;
    if si == 0 {
      NoCodes(bits);
      EmptyCodes(bits, huffcode[..]);
      return true, huffcode;
    }
    NoneShorter(bits, si);
    EmptyCodes(bits, huffcode[..]);
    while huffsize[p] != 0
      invariant 1 <= si <= 17 && p == Start(bits, si) <= n <= 256 && code == First(bits, si)
      invariant forall l :: 1 <= l < si ==> First(bits, l) + bits[l] < Pow2(l)
      invariant huffcode.Length == 257 && IsCodes(bits, huffcode[..], p) && huffsize[..] == sizes
      decreases 17 - si
    {
      assert sizes[p] == huffsize[p];
      SizeReached(bits, sizes, p, si);
      NextLength(bits, si);
      while huffsize[p] == si
        invariant Start(bits, si) <= p <= Start(bits, si + 1)
        invariant code == First(bits, si) + (p - Start(bits, si))
        invariant huffcode.Length == 257 && p <= n && IsCodes(bits, huffcode[..], p) && huffsize[..] == sizes
        decreases n - p
      {
        assert sizes[p] == si;
        SizeMatches(bits, sizes, p, si);
        ExtendCodes(bits, huffcode[..], p, si);
        ghost var codes: seq<nat> := huffcode[..];
        huffcode[p] := code;
        assert huffcode[..] == codes[p := code];
        p := p + 1;
        code := code + 1;
      }
      assert sizes[p] != si;
      SizeDone(bits, sizes, p, si);
      if code >= Pow2(si) {
        Overfull(bits, si);
        return false, huffcode;
      }
      code := code * 2;
      si := si + 1;
    }
    assert p == n by { assert sizes[p] == 0; }
    AllFit(bits, si);
    ok := true;
  }

  lemma NextLength(bits: seq<nat>, l: nat)
    requires |bits| == 17 && 1 <= l <= 16
    ensures Start(bits, l + 1) == Start(bits, l) + bits[l] <= Start(bits, 17)
    ensures First(bits, l + 1) == 2 * (First(bits, l) + bits[l])
  {
    StartMonotone(bits, l + 1, 17);
  }

  lemma EmptyCodes(bits: seq<nat>, codes: seq<nat>)
    requires |bits| == 17 && Start(bits, 17) <= 256 && |codes| == 257
    ensures IsCodes(bits, codes, 0)
  {
  }

  lemma Overfull(bits: seq<nat>, l: nat)
    requires |bits| == 17 && 1 <= l <= 16 && First(bits, l) + bits[l] >= Pow2(l)
    ensures !Legal(bits)
  {
  }

  lemma AllFit(bits: seq<nat>, si: nat)
    requires |bits| == 17 && 1 <= si <= 17 && Start(bits, si) == Start(bits, 17) <= 256
    requires forall l :: 1 <= l < si ==> First(bits, l) + bits[l] < Pow2(l)
    ensures Legal(bits)
  {
    forall l | 1 <= l <= 16
      ensures First(bits, l) + bits[l] < Pow2(l)
    {
      if l >= si {
        NoLongerCodes(bits, si, l + 1);
      }
    }
  }

  lemma NoCodes(bits: seq<nat>)
    requires |bits| == 17 && Start(bits, 17) == 0
    ensures Legal(bits)
  {
    forall l | 1 <= l <= 16
      ensures First(bits, l) + bits[l] < Pow2(l)
    {
      NoLongerCodes(bits, 1, l + 1);
    }
  }

  // ----- the encoder's table (Figure C.3)

  /** The symbols with codes are distinct and at most max. */
  ghost predicate GoodSymbols(t: HuffTbl, max: nat, n: nat)
    requires n <= 256
  {
    && (forall p :: 0 <= p < n ==> t.vals[p] <= max)
    && (forall p, q :: 0 <= p < q < n ==> t.vals[p] != t.vals[q])
  }

  function MaxSymbol(isDC: bool): nat {
    if isDC then 15 else 255
  }

  /** The table gives the symbols of t their codes and no other symbol a code. */
  ghost predicate IsCDerived(t: HuffTbl, d: CDerived, n: nat)
    requires n <= NumSymbols(t) <= 256
  {
    && |d.ehufco| == |d.ehufsi| == 256
    && (forall p :: 0 <= p < n ==>
          var l := Length(t.bits, p);
          d.ehufsi[t.vals[p]] == l && d.ehufco[t.vals[p]] == Code(t.bits, p, l))
    && (forall s :: 0 <= s < 256 && d.ehufsi[s] != 0 ==> s in t.vals[..n])
  }

  lemma DerivedStep(t: HuffTbl, sizes: seq<nat>, codes: seq<nat>, co: seq<nat>, si: seq<nat>, p: nat, max: nat)
    requires p < NumSymbols(t) <= 256 && IsSizes(t.bits, sizes) && IsCodes(t.bits, codes, NumSymbols(t))
    requires IsCDerived(t, CDerived(co, si), p) && GoodSymbols(t, max, p)
    ensures sizes[p] != 0
    ensures t.vals[p] <= max && si[t.vals[p]] == 0 <==> GoodSymbols(t, max, p + 1)
    ensures si[t.vals[p]] == 0 ==>
              IsCDerived(t, CDerived(co[t.vals[p] := codes[p]], si[t.vals[p] := sizes[p]]), p + 1)
  {
    var i := t.vals[p];
    assert t.vals[..p + 1] == t.vals[..p] + [i];
    if i in t.vals[..p] {
      var q :| 0 <= q < p && t.vals[..p][q] == i;
      assert si[t.vals[q]] == Length(t.bits, q);
    }
  }

  lemma {:induction false} GoodSymbolsPrefix(t: HuffTbl, max: nat, p: nat, n: nat)
    requires p <= n <= 256 && GoodSymbols(t, max, n)
    ensures GoodSymbols(t, max, p)
  {
  }

  method MakeCDerived(isDC: bool, t: HuffTbl) returns (r: Result<CDerived>)
    ensures r.Ok? <==> Legal(t.bits) && NumSymbols(t) <= 256 && GoodSymbols(t, MaxSymbol(isDC), NumSymbols(t))
    ensures r.Ok? ==> IsCDerived(t, r.value, NumSymbols(t))
  {
    hide IsSizes, IsCodes, IsCDerived, GoodSymbols, Start, First;
    LegalCount(t.bits);
    var ok, huffsize, lastp := MakeSizes(t.bits);
    if !ok {
      return BadTable;
    }
    var huffcode;
    ok, huffcode := MakeCodes(t.bits, huffsize);
    if !ok {
      return BadTable;
    }
    ghost var sizes: seq<nat>, codes: seq<nat> := huffsize[..], huffcode[..];
    SizesFacts(t.bits, sizes);
    var ehufco := new nat[256](_ => 0);
    var ehufsi := new nat[256](_ => 0);
    var maxsymbol := if isDC then 15 else 255;
    NothingDerived(t, ehufco[..], ehufsi[..], maxsymbol);
    for p := 0 to lastp
      invariant huffsize[..] == sizes && huffcode[..] == codes
      invariant GoodSymbols(t, maxsymbol, p)
      invariant IsCDerived(t, CDerived(ehufco[..], ehufsi[..]), p)
    {
      var i := t.vals[p];
      DerivedStep(t, sizes, codes, ehufco[..], ehufsi[..], p, maxsymbol);
      assert sizes[p] == huffsize[p] && codes[p] == huffcode[p];
      if i > maxsymbol || ehufsi[i] != 0 {
        if GoodSymbols(t, maxsymbol, lastp) {
          GoodSymbolsPrefix(t, maxsymbol, p + 1, lastp);
        }
        return BadTable;
      }
      ghost var co: seq<nat>, si: seq<nat> := ehufco[..], ehufsi[..];
      ehufco[i] := huffcode[p];
      ehufsi[i] := huffsize[p];
      assert ehufco[..] == co[i := codes[p]] && ehufsi[..] == si[i := sizes[p]];
    }
    r := Ok(CDerived(ehufco[..], ehufsi[..]));
  }

  lemma LegalCount(bits: seq<nat>)
    requires |bits| == 17
    ensures Legal(bits) ==> Start(bits, 17) <= 256
  {
  }

  lemma NothingDerived(t: HuffTbl, co: seq<nat>, si: seq<nat>, max: nat)
    requires NumSymbols(t) <= 256 && |co| == |si| == 256 && forall s :: 0 <= s < 256 ==> si[s] == 0
    ensures IsCDerived(t, CDerived(co, si), 0) && GoodSymbols(t, max, 0)
  {
  }

  // ----- the decoder's tables (Figure F.15 and the lookahead tables)

  /** What the lookahead tables say about the eight bits look: a code that starts them, or none. */
  ghost predicate LookRight(t: HuffTbl, nbits: nat, sym: nat, look: nat) {
    && (nbits == 0 ==> forall p: nat, l: nat :: !ShortCode(t.bits, look, p, l))
    && (nbits != 0 ==> exists p: nat :: ShortCode(t.bits, look, p, nbits) && p < 256 && sym == t.vals[p])
  }

  ghost predicate IsDDerived(t: HuffTbl, d: DDerived) {
    && d.pub == t && Legal(t.bits)
    && |d.maxcode| == 18 && |d.valoffset| == 17 && |d.lookNbits| == |d.lookSym| == 256
    && (forall l :: 1 <= l <= 17 ==> d.maxcode[l] == MaxCode(t.bits, l))
    && (forall l :: 1 <= l <= 16 && t.bits[l] != 0 ==> d.valoffset[l] == ValOffset(t.bits, l))
    && (forall look :: 0 <= look < 256 ==> LookRight(t, d.lookNbits[look], d.lookSym[look], look))
  }

  lemma LengthCodes(bits: seq<nat>, codes: seq<nat>, l: nat, p: nat)
    requires |bits| == 17 && 1 <= l <= 16 && IsCodes(bits, codes, Start(bits, 17)) && HasLength(bits, p, l)
    ensures p < Start(bits, 17) <= 256
    ensures codes[p] == First(bits, l) + (p - Start(bits, l))
  {
    StartMonotone(bits, l + 1, 17);
    LengthIsUnique(bits, p, l, Length(bits, p));
  }

  lemma NoCodesYet(bits: seq<nat>)
    requires |bits| == 17
    ensures Start(bits, 1) == 0
  {
  }

  method MakeSearchTables(bits: seq<nat>, huffcode: array<nat>) returns (maxcode: array<int>, valoffset: array<int>)
    requires |bits| == 17 && huffcode.Length == 257 && IsCodes(bits, huffcode[..], Start(bits, 17))
    ensures fresh(maxcode) && fresh(valoffset) && maxcode.Length == 18 && valoffset.Length == 17
    ensures forall l :: 1 <= l <= 17 ==> maxcode[l] == MaxCode(bits, l)
    ensures forall l :: 1 <= l <= 16 && bits[l] != 0 ==> valoffset[l] == ValOffset(bits, l)
  {
    hide IsCodes, First, Start;
    NoCodesYet(bits);
    maxcode, valoffset := new int[18](_ => 0), new int[17](_ => 0);
    var p := 0;
    for l := 1 to 17
      invariant p == Start(bits, l) && maxcode.Length == 18 && valoffset.Length == 17
      invariant forall m :: 1 <= m < l ==> maxcode[m] == MaxCode(bits, m)
      invariant forall m :: 1 <= m < l && bits[m] != 0 ==> valoffset[m] == ValOffset(bits, m)
    {
      NextLength(bits, l);
      if bits[l] != 0 {
        LengthCodes(bits, huffcode[..], l, p);
        LengthCodes(bits, huffcode[..], l, p + bits[l] - 1);
        valoffset[l] := p - huffcode[p];
        p := p + bits[l];
        maxcode[l] := huffcode[p - 1];
      } else {
        maxcode[l] := -1;
      }
    }
    maxcode[17] := 0xFFFFF;
  }

  /** Two codes cannot both start the same eight bits. */
  lemma ShortCodeUnique(bits: seq<nat>, look: nat, p: nat, l: nat, q: nat, m: nat)
    requires |bits| == 17 && ShortCode(bits, look, p, l) && ShortCode(bits, look, q, m)
    ensures p == q && l == m
  {
    if p == q {
      LengthIsUnique(bits, p, l, m);
    } else if l <= m {
      PrefixFree(bits, p, q, l, m);
      DivideTwice(look, 8 - m, m - l);
    } else {
      PrefixFree(bits, q, p, m, l);
      DivideTwice(look, 8 - l, l - m);
    }
  }

  lemma DivideTwice(x: nat, j: nat, k: nat)
    ensures x / Pow2(j) / Pow2(k) == x / Pow2(j + k)
  {
    Pow2Add(j, k);
    DivDiv(x, Pow2(j), Pow2(k));
  }

  /** The lookahead entries filled in for the first n symbols. */
  ghost predicate LookFilled(t: HuffTbl, nbits: seq<nat>, syms: seq<nat>, n: nat) {
    && |nbits| == |syms| == 256
    && forall look :: 0 <= look < 256 ==>
         && (forall p: nat, l: nat :: p < n && ShortCode(t.bits, look, p, l) ==>
             nbits[look] == l && p < 256 && syms[look] == t.vals[p])
         && (nbits[look] != 0 ==> exists p: nat :: p < n && ShortCode(t.bits, look, p, nbits[look]))
  }

  /** The codes of symbol p occupy the entries code << (8 - l) up to (code + 1) << (8 - l). */
  lemma ShortRange(bits: seq<nat>, p: nat, l: nat, look: nat)
    requires |bits| == 17 && HasLength(bits, p, l) && l <= 8 && look < 256
    ensures ShortCode(bits, look, p, l) <==>
            Code(bits, p, l) * Pow2(8 - l) <= look < (Code(bits, p, l) + 1) * Pow2(8 - l)
  {
    hide Code, HasLength, Pow2;
    var c, d := Code(bits, p, l), Pow2(8 - l);
    var q, r := look / d, look % d;
    assert look == q * d + r;
    CompareQuotient(q, r, d, c);
    CompareQuotient(q, r, d, c + 1);
  }

  lemma ShortFits(bits: seq<nat>, p: nat, l: nat)
    requires |bits| == 17 && Legal(bits) && HasLength(bits, p, l) && l <= 8
    ensures (Code(bits, p, l) + 1) * Pow2(8 - l) <= 256
  {
    Pow2Add(l, 8 - l);
    Pow2Values();
    MulMonotone(Code(bits, p, l) + 1, Pow2(l), Pow2(8 - l));
  }

  /** One code fills a range of lookahead entries. */
  method FillEntries(nbits: array<nat>, syms: array<nat>, lo: nat, count: nat, l: nat, sym: nat)
    requires nbits.Length == syms.Length == 256 && nbits != syms && lo + count <= 256
    modifies nbits, syms
    ensures forall x :: 0 <= x < 256 ==>
              nbits[x] == (if lo <= x < lo + count then l else old(nbits[x])) &&
              syms[x] == (if lo <= x < lo + count then sym else old(syms[x]))
  {
    var lookbits, ctr := lo, count;
    while ctr > 0
      invariant lookbits == lo + (count - ctr) && 0 <= ctr <= count
      invariant forall x :: 0 <= x < 256 ==>
                  nbits[x] == (if lo <= x < lookbits then l else old(nbits[x])) &&
                  syms[x] == (if lo <= x < lookbits then sym else old(syms[x]))
    {
      nbits[lookbits] := l;
      syms[lookbits] := sym;
      lookbits := lookbits + 1;
      ctr := ctr - 1;
    }
  }

  lemma LookStep(t: HuffTbl, nbits: seq<nat>, syms: seq<nat>, nbits': seq<nat>, syms': seq<nat>, p: nat, l: nat,
                 lo: nat, hi: nat)
    requires LookFilled(t, nbits, syms, p) && |nbits'| == |syms'| == 256
    requires HasLength(t.bits, p, l) && l <= 8 && p < 256
    requires lo == Code(t.bits, p, l) * Pow2(8 - l) && hi == (Code(t.bits, p, l) + 1) * Pow2(8 - l)
    requires forall x :: 0 <= x < 256 ==>
               nbits'[x] == (if lo <= x < hi then l else nbits[x]) &&
               syms'[x] == (if lo <= x < hi then t.vals[p] else syms[x])
    ensures LookFilled(t, nbits', syms', p + 1)
  {
    hide Pow2;
    forall look: nat | look < 256
      ensures forall q: nat, m: nat :: q < p + 1 && ShortCode(t.bits, look, q, m) ==>
                nbits'[look] == m && q < 256 && syms'[look] == t.vals[q]
      ensures nbits'[look] != 0 ==> exists q: nat :: q < p + 1 && ShortCode(t.bits, look, q, nbits'[look])
    {
      ShortRange(t.bits, p, l, look);
      forall q: nat, m: nat | q < p + 1 && ShortCode(t.bits, look, q, m)
        ensures nbits'[look] == m && q < 256 && syms'[look] == t.vals[q]
      {
        if lo <= look < hi {
          ShortCodeUnique(t.bits, look, p, l, q, m);
        } else if q == p {
          LengthIsUnique(t.bits, p, l, m);
        }
      }
    }
  }

  lemma LookDone(t: HuffTbl, nbits: seq<nat>, syms: seq<nat>, n: nat)
    requires LookFilled(t, nbits, syms, n) && n == Start(t.bits, 9)
    ensures forall look :: 0 <= look < 256 ==> LookRight(t, nbits[look], syms[look], look)
  {
    forall look: nat | look < 256
      ensures LookRight(t, nbits[look], syms[look], look)
    {
      forall p: nat, l: nat | ShortCode(t.bits, look, p, l)
        ensures p < n
      {
        StartMonotone(t.bits, l + 1, 9);
      }
    }
  }

  method MakeLookTables(t: HuffTbl, huffcode: array<nat>) returns (nbits: array<nat>, syms: array<nat>)
    requires Legal(t.bits) && huffcode.Length == 257 && IsCodes(t.bits, huffcode[..], NumSymbols(t))
    ensures fresh(nbits) && fresh(syms) && nbits.Length == syms.Length == 256
    ensures forall look :: 0 <= look < 256 ==> LookRight(t, nbits[look], syms[look], look)
  {
    hide IsCodes, First, Start, LookFilled, Legal, LookRight, Pow2, HasLength;
    nbits, syms := new nat[256](_ => 0), new nat[256](_ => 0);
    ghost var codes: seq<nat> := huffcode[..];
    var p := 0;
    NoCodesYet(t.bits);
    NothingFilled(t, nbits[..], syms[..]);
    for l := 1 to HUFF_LOOKAHEAD + 1
      invariant p == Start(t.bits, l) && huffcode[..] == codes
      invariant LookFilled(t, nbits[..], syms[..], p)
    {
      NextLength(t.bits, l);
      for i := 0 to t.bits[l]
        invariant p == Start(t.bits, l) + i && huffcode[..] == codes
        invariant LookFilled(t, nbits[..], syms[..], p)
      {
        InLength(t.bits, p, l);
        LengthCodes(t.bits, codes, l, p);
        ShortFits(t.bits, p, l);
        ghost var nb: seq<nat>, sy: seq<nat>, c := nbits[..], syms[..], Code(t.bits, p, l);
        assert huffcode[p] == codes[p] == c;
        MulAdd(c, 1, Pow2(HUFF_LOOKAHEAD - l));
        FillEntries(nbits, syms, huffcode[p] * Pow2(HUFF_LOOKAHEAD - l), Pow2(HUFF_LOOKAHEAD - l), l, t.vals[p]);
        LookStep(t, nb, sy, nbits[..], syms[..], p, l, c * Pow2(8 - l), (c + 1) * Pow2(8 - l));
        p := p + 1;
      }
    }
    LookDone(t, nbits[..], syms[..], p);
  }

  lemma InLength(bits: seq<nat>, p: nat, l: nat)
    requires |bits| == 17 && 1 <= l <= 16 && Start(bits, l) <= p < Start(bits, l) + bits[l]
    ensures HasLength(bits, p, l)
  {
  }

  lemma NothingFilled(t: HuffTbl, nbits: seq<nat>, syms: seq<nat>)
    requires |nbits| == |syms| == 256 && forall x :: 0 <= x < 256 ==> nbits[x] == 0
    ensures LookFilled(t, nbits, syms, 0)
  {
  }

  method MakeDDerived(isDC: bool, t: HuffTbl) returns (r: Result<DDerived>)
    ensures r.Ok? <==> Legal(t.bits) && NumSymbols(t) <= 256 &&
                       (isDC ==> forall p :: 0 <= p < NumSymbols(t) ==> t.vals[p] <= 15)
    ensures r.Ok? ==> IsDDerived(t, r.value)
  {
    hide IsSizes, IsCodes, LookRight, Start, First;
    LegalCount(t.bits);
    var ok, huffsize, numsymbols := MakeSizes(t.bits);
    if !ok {
      return BadTable;
    }
    var huffcode;
    ok, huffcode := MakeCodes(t.bits, huffsize);
    if !ok {
      return BadTable;
    }
    var maxcode, valoffset := MakeSearchTables(t.bits, huffcode);
    var nbits, syms := MakeLookTables(t, huffcode);
    if isDC {
      for i := 0 to numsymbols
        invariant forall p :: 0 <= p < i ==> t.vals[p] <= 15
      {
        if t.vals[i] > 15 {
          return BadTable;
        }
      }
    }
    r := Ok(DDerived(maxcode[..], valoffset[..], nbits[..], syms[..], t));
  }
}
