// Building a Huffman table from symbol counts (section K.2 of T.81).
module HuffGenerate {
  import opened Powers
  import opened HuffCode
  import opened HuffLimit
  import opened HuffTables
  import Opt = HuffOptimal
  import opened HuffMerge

  // ----- what the table holds

  /** The symbols below n whose code has size l, in order. */
  function OfSize(sizes: seq<nat>, l: nat, n: nat): (r: seq<nat>)
    requires n <= |sizes|
    ensures forall s: nat :: s in r <==> s < n && sizes[s] == l
  {
    if n == 0 then [] else if sizes[n - 1] == l then OfSize(sizes, l, n - 1) + [n - 1] else OfSize(sizes, l, n - 1)
  }

  /** The real symbols with codes of sizes 1 to l, by size and then by value. */
  function Listing(sizes: seq<nat>, l: nat): (r: seq<nat>)
    requires |sizes| == SYMBOLS
    ensures forall s: nat :: s in r <==> s < 256 && 1 <= sizes[s] <= l
  {
    if l == 0 then [] else Listing(sizes, l - 1) + OfSize(sizes, l, 256)
  }

  /** Later symbols of the listing have no shorter size, and no symbol is listed twice. */
  ghost predicate Sorted(sizes: seq<nat>, list: seq<nat>) {
    forall p, q :: 0 <= p < q < |list| && list[p] < |sizes| && list[q] < |sizes| ==>
      sizes[list[p]] <= sizes[list[q]] && list[p] != list[q]
  }

  lemma {:induction false} OfSizeSorted(sizes: seq<nat>, l: nat, n: nat)
    requires n <= |sizes|
    ensures Sorted(sizes, OfSize(sizes, l, n))
  {
    if n > 0 {
      OfSizeSorted(sizes, l, n - 1);
      var r := OfSize(sizes, l, n);
      forall p, q | 0 <= p < q < |r| && r[p] < |sizes| && r[q] < |sizes|
        ensures sizes[r[p]] <= sizes[r[q]] && r[p] != r[q]
      {
        assert r[p] in r && r[q] in r;
        assert r[p] in OfSize(sizes, l, n - 1);
      }
    }
  }

  lemma {:induction false} ListingSorted(sizes: seq<nat>, l: nat)
    requires |sizes| == SYMBOLS
    ensures Sorted(sizes, Listing(sizes, l))
  {
    if l > 0 {
      ListingSorted(sizes, l - 1);
      OfSizeSorted(sizes, l, 256);
      var a, b := Listing(sizes, l - 1), OfSize(sizes, l, 256);
      forall p, q | 0 <= p < q < |a + b| && (a + b)[p] < |sizes| && (a + b)[q] < |sizes|
        ensures sizes[(a + b)[p]] <= sizes[(a + b)[q]] && (a + b)[p] != (a + b)[q]
      {
        assert p < |a| ==> (a + b)[p] == a[p] && a[p] in a;
        assert p >= |a| ==> (a + b)[p] == b[p - |a|];
        assert q < |a| ==> (a + b)[q] == a[q];
        assert q >= |a| ==> (a + b)[q] == b[q - |a|] && b[q - |a|] in b;
      }
    }
  }

  /** How many of the symbols have codes of each size, counting the pseudo-symbol. */
  ghost predicate Counted(sizes: seq<nat>, bits: seq<nat>, n: nat)
    requires n <= |sizes|
  {
    |bits| == MAX_CLEN + 1 && bits[0] == 0 && forall l :: 1 <= l <= MAX_CLEN ==> bits[l] == |OfSize(sizes, l, n)|
  }

  lemma {:induction false} CountedTotal(sizes: seq<nat>, bits: seq<nat>, l: nat)
    requires |sizes| == SYMBOLS && Counted(sizes, bits, SYMBOLS) && l <= MAX_CLEN
    ensures Total(bits, l) == |Listing(sizes, l)| + if 1 <= sizes[256] <= l then 1 else 0
  {
    if l > 0 {
      CountedTotal(sizes, bits, l - 1);
    }
  }

  lemma {:induction false} ListingGrows(sizes: seq<nat>, l: nat, m: nat)
    requires |sizes| == SYMBOLS && l <= m
    ensures |Listing(sizes, l)| <= |Listing(sizes, m)|
    ensures Listing(sizes, m)[..|Listing(sizes, l)|] == Listing(sizes, l)
  {
    if l < m {
      ListingGrows(sizes, l, m - 1);
    }
  }

  lemma {:induction false} OfSizeGrows(sizes: seq<nat>, l: nat, m: nat, n: nat)
    requires m <= n <= |sizes|
    ensures |OfSize(sizes, l, m)| <= |OfSize(sizes, l, n)|
  {
    if m < n {
      OfSizeGrows(sizes, l, m, n - 1);
    }
  }

  // ----- counting the sizes

  /** Every symbol in use has a code of at least one bit, when two at least are in use. */
  lemma SizesPositive(counts: seq<nat>, sizes: seq<nat>, i: nat, j: nat)
    requires OptimalSizes(counts, sizes) && i < |counts| && j < |counts| && i != j && counts[i] > 0 && counts[j] > 0
    ensures sizes[i] > 0
  {
    hide Opt.Sum, Opt.Cost;
    Opt.SumAtLeastTwo(Opt.Shares(counts, sizes, SYMBOLS), i, j);
  }

  lemma {:induction false} SomeInUse(f: seq<nat>)
    ensures Opt.InUse(f) > 0 <==> exists i :: 0 <= i < |f| && f[i] > 0
  {
    if f != [] {
      SomeInUse(f[..|f| - 1]);
    }
  }

  /** A code in which every size is at most 32 fills the code space of 32-bit codes. */
  lemma ShareOf32(counts: seq<nat>, sizes: seq<nat>)
    requires OptimalSizes(counts, sizes)
    requires forall i :: 0 <= i < |counts| ==> sizes[i] <= MAX_CLEN
    ensures Opt.Sum(Opt.Shares(counts, sizes, MAX_CLEN)) == Pow2(MAX_CLEN)
  {
    hide Opt.Sum, Opt.Cost, Pow2;
    var s, t := Opt.Shares(counts, sizes, MAX_CLEN), Opt.Shares(counts, sizes, SYMBOLS);
    var d := Pow2(SYMBOLS - MAX_CLEN);
    forall i | 0 <= i < |s| ensures t[i] == s[i] * d {
      Pow2Add(MAX_CLEN - sizes[i], SYMBOLS - MAX_CLEN);
    }
    Opt.SumScale(s, t, d);
    CancelPow2(Opt.Sum(s), MAX_CLEN, SYMBOLS);
  }

  /** Counting one more symbol of size l. */
  lemma CountOne(counts: seq<nat>, sizes: seq<nat>, bits: seq<nat>, i: nat)
    requires |counts| == |sizes| && i < |counts| && (counts[i] > 0 <==> sizes[i] > 0) && sizes[i] <= MAX_CLEN
    requires Counted(sizes, bits, i) && Fill(bits, MAX_CLEN) == Opt.Sum(Opt.Shares(counts, sizes, MAX_CLEN)[..i])
    requires Total(bits, MAX_CLEN) == Opt.InUse(counts[..i])
    ensures var r := if sizes[i] == 0 then bits else Bump(bits, sizes[i], 1);
            && Counted(sizes, r, i + 1) && Fill(r, MAX_CLEN) == Opt.Sum(Opt.Shares(counts, sizes, MAX_CLEN)[..i + 1])
            && Total(r, MAX_CLEN) == Opt.InUse(counts[..i + 1])
  {
    hide Fill, Total, Pow2;
    var s := Opt.Shares(counts, sizes, MAX_CLEN);
    assert s[..i + 1][..i] == s[..i] && counts[..i + 1][..i] == counts[..i];
    if sizes[i] > 0 {
      FillBump(bits, sizes[i], 1, MAX_CLEN);
    }
  }

  lemma CountNone(counts: seq<nat>, sizes: seq<nat>, bits: seq<nat>)
    requires |counts| == |sizes| && |bits| == MAX_CLEN + 1 && forall l :: 0 <= l <= MAX_CLEN ==> bits[l] == 0
    ensures Counted(sizes, bits, 0) && Fill(bits, MAX_CLEN) == Opt.Sum(Opt.Shares(counts, sizes, MAX_CLEN)[..0])
    ensures Total(bits, MAX_CLEN) == Opt.InUse(counts[..0])
  {
    NothingShorter(bits, MAX_CLEN);
    NoTotal(bits, MAX_CLEN);
  }

  lemma {:induction false} NoTotal(bits: seq<nat>, n: nat)
    requires n < |bits| && forall l :: 0 <= l <= n ==> bits[l] == 0
    ensures Total(bits, n) == 0
  {
    if n > 0 {
      NoTotal(bits, n - 1);
    }
  }

  lemma {:induction false} InUsePrefix(f: seq<nat>, n: nat)
    requires n <= |f|
    ensures Opt.InUse(f[..n]) <= Opt.InUse(f)
    decreases |f|
  {
    if n < |f| {
      InUsePrefix(f[..|f| - 1], n);
      assert f[..|f| - 1][..n] == f[..n];
    } else {
      assert f[..n] == f;
    }
  }

  /** Count the symbols of each code size; more than 32 bits is an error. */
  method CountSizes(codesize: array<nat>, ghost counts: seq<nat>) returns (ok: bool, bits: array<UInt8>)
    requires codesize.Length == SYMBOLS && OptimalSizes(counts, codesize[..]) && Opt.InUse(counts) <= 255
    requires forall i :: 0 <= i < SYMBOLS ==> (counts[i] > 0 <==> codesize[i] > 0)
    ensures fresh(bits) && bits.Length == MAX_CLEN + 1
    ensures ok <==> forall i :: 0 <= i < SYMBOLS ==> codesize[i] <= MAX_CLEN
    ensures ok ==> Counted(codesize[..], bits[..], SYMBOLS) && Full(bits[..], MAX_CLEN)
  {
    hide OptimalSizes, Counted, Fill, Total, Opt.Shares, Opt.Sum, Opt.InUse, Pow2;
    bits := new UInt8[MAX_CLEN + 1](_ => 0);
    ghost var sizes := codesize[..];
    OptimalLengths(counts, sizes);
    CountNone(counts, sizes, bits[..]);
    for i := 0 to SYMBOLS
      invariant fresh(bits) && bits.Length == MAX_CLEN + 1
      invariant forall k :: 0 <= k < i ==> codesize[k] <= MAX_CLEN
      invariant Counted(sizes, bits[..], i) &&
                Fill(bits[..], MAX_CLEN) == Opt.Sum(Opt.Shares(counts, sizes, MAX_CLEN)[..i])
      invariant Total(bits[..], MAX_CLEN) == Opt.InUse(counts[..i])
    {
      if codesize[i] != 0 {
        if codesize[i] > MAX_CLEN {
          return false, bits;
        }
        CountOne(counts, sizes, bits[..], i);
        InUsePrefix(counts, i + 1);
        FillBump(bits[..], codesize[i], 1, MAX_CLEN);
        TotalBound(bits[..], codesize[i], MAX_CLEN);
        bits[codesize[i]] := bits[codesize[i]] + 1;
      } else {
        CountOne(counts, sizes, bits[..], i);
      }
    }
    ok := true;
    ShareOf32(counts, sizes);
    assert Opt.Shares(counts, sizes, MAX_CLEN)[..SYMBOLS] == Opt.Shares(counts, sizes, MAX_CLEN);
    assert counts[..SYMBOLS] == counts;
  }

  lemma OptimalLengths(counts: seq<nat>, sizes: seq<nat>)
    requires OptimalSizes(counts, sizes)
    ensures |counts| == |sizes| == |Opt.Shares(counts, sizes, MAX_CLEN)|
  {
  }

  // ----- the table

  /** The counts with the pseudo-symbol's. */
  function WithPseudo(freq: seq<nat>): (r: seq<nat>)
    requires |freq| == SYMBOLS
    ensures |r| == SYMBOLS
  {
    freq[256 := 1]
  }

  ghost function SizeCounts(sizes: seq<nat>): (r: seq<nat>)
    requires |sizes| == SYMBOLS
    ensures Counted(sizes, r, SYMBOLS)
  {
    seq(MAX_CLEN + 1, l requires 0 <= l <= MAX_CLEN => if l == 0 then 0 else |OfSize(sizes, l, SYMBOLS)|)
  }

  /** The code counts for these code sizes: limited to 16 bits, and one of the longest given up. */
  ghost function FinalCounts(sizes: seq<nat>): (r: seq<nat>)
    requires |sizes| == SYMBOLS && Full(SizeCounts(sizes), MAX_CLEN)
    ensures |r| == 17
  {
    var limited := Limit(SizeCounts(sizes), MAX_CLEN);
    WithoutLast(limited);
    Bump(limited, HuffLimit.Longest(limited, 16), -1)[..17]
  }

  lemma CountsAreUnique(sizes: seq<nat>, bits: seq<nat>)
    requires |sizes| == SYMBOLS && Counted(sizes, bits, SYMBOLS)
    ensures bits == SizeCounts(sizes)
  {
  }

  /** Whatever the counts: every code has at most 16 bits, none is all ones, and there is one for each
      of the symbols listed. */
  lemma TableIsLegal(sizes: seq<nat>, t: HuffTbl)
    requires |sizes| == SYMBOLS && 1 <= sizes[256] <= MAX_CLEN && Full(SizeCounts(sizes), MAX_CLEN)
    requires t.bits == FinalCounts(sizes) && |Listing(sizes, MAX_CLEN)| <= 256
    requires t.vals[..|Listing(sizes, MAX_CLEN)|] == Listing(sizes, MAX_CLEN)
    ensures Legal(t.bits) && NumSymbols(t) == |Listing(sizes, MAX_CLEN)|
    ensures GoodSymbols(t, 255, NumSymbols(t))
  {
    hide Limit, Full, Legal, Fill, Total;
    var limited := Limit(SizeCounts(sizes), MAX_CLEN);
    WithoutLast(limited);
    CountedTotal(sizes, SizeCounts(sizes), MAX_CLEN);
    ListingSorted(sizes, MAX_CLEN);
    var list := Listing(sizes, MAX_CLEN);
    forall p, q | 0 <= p < q < |list| ensures t.vals[p] != t.vals[q] {
      assert list[p] in list && list[q] in list;
      assert t.vals[p] == list[p] && t.vals[q] == list[q];
    }
  }

  lemma {:induction false} LimitIdle(bits: seq<nat>, i: nat)
    requires 16 <= i && Full(bits, i) && forall l :: 16 < l <= i ==> bits[l] == 0
    ensures Limit(bits, i) == bits
  {
    if i > 16 {
      FullDown(bits, i);
      LimitIdle(bits, i - 1);
    }
  }

  /** When no optimal size exceeds 16, every symbol's code is at most its optimal size long. */
  lemma NoLongerThanOptimal(sizes: seq<nat>, t: HuffTbl, p: nat)
    requires |sizes| == SYMBOLS && 1 <= sizes[256] && Full(SizeCounts(sizes), MAX_CLEN)
    requires forall s :: 0 <= s < SYMBOLS ==> sizes[s] <= 16
    requires t.bits == FinalCounts(sizes) && |Listing(sizes, MAX_CLEN)| <= 256
    requires t.vals[..|Listing(sizes, MAX_CLEN)|] == Listing(sizes, MAX_CLEN) && p < |Listing(sizes, MAX_CLEN)|
    ensures NumSymbols(t) == |Listing(sizes, MAX_CLEN)|
    ensures Length(t.bits, p) <= sizes[t.vals[p]]
  {
    hide Limit, Full, Fill, Total, Start, Listing, Length, Legal, GoodSymbols;
    TableIsLegal(sizes, t);
    var list := Listing(sizes, MAX_CLEN);
    assert t.vals[p] == list[p] && list[p] in list;
    var l := sizes[list[p]];
    var bits := SizeCounts(sizes);
    NoLongSizes(sizes);
    WithoutLast(bits);
    var top := HuffLimit.Longest(bits, 16);
    assert t.bits == Bump(bits, top, -1)[..17];
    if l < top {
      FirstIsFill(Bump(bits, top, -1), l);
      FillBump(bits, top, -1, l);
      CountedTotal(sizes, bits, l);
      AmongListed(sizes, l, p);
      StartMonotone(t.bits, l + 1, 17);
      ShorterStart(t.bits, p, l);
    } else {
      UsedLength(t.bits, p);
      assert forall m :: top < m <= 16 ==> t.bits[m] == 0;
    }
  }

  lemma UsedLength(bits: seq<nat>, p: nat)
    requires |bits| == 17 && p < Start(bits, 17)
    ensures 1 <= Length(bits, p) <= 16 && bits[Length(bits, p)] > 0
  {
  }

  lemma {:induction false} OfSizeEmpty(sizes: seq<nat>, m: nat, n: nat)
    requires n <= |sizes| && forall s :: 0 <= s < n ==> sizes[s] != m
    ensures OfSize(sizes, m, n) == []
  {
    if n > 0 {
      OfSizeEmpty(sizes, m, n - 1);
    }
  }

  lemma NoLongSizes(sizes: seq<nat>)
    requires |sizes| == SYMBOLS && Full(SizeCounts(sizes), MAX_CLEN) && forall s :: 0 <= s < SYMBOLS ==> sizes[s] <= 16
    ensures Limit(SizeCounts(sizes), MAX_CLEN) == SizeCounts(sizes) && Full(SizeCounts(sizes), 16)
  {
    var bits := SizeCounts(sizes);
    forall m | 16 < m <= MAX_CLEN ensures bits[m] == 0 {
      OfSizeEmpty(sizes, m, SYMBOLS);
    }
    LimitIdle(bits, MAX_CLEN);
  }

  lemma AmongListed(sizes: seq<nat>, l: nat, p: nat)
    requires |sizes| == SYMBOLS && p < |Listing(sizes, MAX_CLEN)| && l <= MAX_CLEN
    requires var s := Listing(sizes, MAX_CLEN)[p]; s < SYMBOLS && sizes[s] == l
    ensures p < |Listing(sizes, l)|
  {
    hide Listing;
    var list, short := Listing(sizes, MAX_CLEN), Listing(sizes, l);
    ListingGrows(sizes, l, MAX_CLEN);
    ListingSorted(sizes, MAX_CLEN);
    assert list[p] in list;
    assert list[p] in short;
    var q :| 0 <= q < |short| && short[q] == list[p];
    assert list[q] == list[..|short|][q];
  }

  lemma ShorterStart(bits: seq<nat>, p: nat, l: nat)
    requires |bits| == 17 && 1 <= l <= 16 && p < Start(bits, l + 1) <= Start(bits, 17)
    ensures Length(bits, p) <= l
  {
    if Length(bits, p) > l {
      StartMonotone(bits, l + 1, Length(bits, p));
    }
  }

  lemma ListingCount(sizes: seq<nat>, bits: seq<nat>, i: nat, j: nat)
    requires |sizes| == SYMBOLS && Counted(sizes, bits, SYMBOLS) && 1 <= i <= MAX_CLEN && j <= 256
    requires Total(bits, MAX_CLEN) <= 255
    ensures |Listing(sizes, i - 1) + OfSize(sizes, i, j)| <= 255
  {
    hide Total;
    CountedTotal(sizes, bits, MAX_CLEN);
    OfSizeGrows(sizes, i, j, 256);
    ListingGrows(sizes, i, MAX_CLEN);
  }

  /** The code sizes of the counted symbols, the reserved one among them. */
  function CodeLengths(freq: seq<nat>): (r: seq<nat>)
    requires |freq| == SYMBOLS
    ensures |r| == SYMBOLS
  {
    Depths(WithPseudo(freq))
  }

  /** Some optimal code size exceeds 32 bits. */
  ghost predicate Overflows(freq: seq<nat>)
    requires |freq| == SYMBOLS
  {
    exists s :: 0 <= s < SYMBOLS && CodeLengths(freq)[s] > MAX_CLEN
  }

  /** The table lists the symbols by their optimal code sizes, limited to 16 bits. */
  ghost predicate Generated(t: HuffTbl, freq: seq<nat>) {
    && |freq| == SYMBOLS
    && var sizes := CodeLengths(freq);
       var list := Listing(sizes, MAX_CLEN);
       && OptimalSizes(WithPseudo(freq), sizes)
       && Full(SizeCounts(sizes), MAX_CLEN) && t.bits == FinalCounts(sizes)
       && |list| <= 255 && t.vals[..|list|] == list
  }

  lemma OverflowNeedsMany(freq: seq<nat>, sizes: seq<nat>)
    requires |freq| == SYMBOLS && sizes == CodeLengths(freq) && DepthBounded(WithPseudo(freq), sizes)
    requires forall i :: 0 <= i < SYMBOLS ==> (WithPseudo(freq)[i] > 0 <==> sizes[i] > 0)
    requires exists s :: 0 <= s < SYMBOLS && sizes[s] > MAX_CLEN
    ensures Overflows(freq) && Opt.Sum(WithPseudo(freq)) >= 9_227_465
  {
    hide DepthBounded, Opt.Sum, CodeLengths;
    var s :| 0 <= s < SYMBOLS && sizes[s] > MAX_CLEN;
    LongNeedsMany(WithPseudo(freq), sizes, s);
  }

  // A table slot (JHUFF_TBL).
  class HuffSlot {
    var bits: seq<nat>
    const huffval: array<UInt8>
    var sentTable: bool

    ghost predicate Valid()
      reads this
    {
      |bits| == 17 && huffval.Length == 256
    }

    constructor ()
      ensures Valid() && fresh(huffval) && !sentTable
    {
      bits := seq(17, _ => 0);
      huffval := new UInt8[256](_ => 0);
      sentTable := false;
    }

    function Table(): HuffTbl
      reads this, huffval
      requires |bits| == 17 && huffval.Length == 256
    {
      HuffTbl(bits, huffval[..])
    }

    /** List the symbols in order of code size. */
    method ListSymbols(codesize: array<nat>, ghost counted: seq<nat>)
      requires Valid() && codesize.Length == SYMBOLS && codesize as object != huffval
      requires Counted(codesize[..], counted, SYMBOLS) && Total(counted, MAX_CLEN) <= 255
      modifies huffval
      ensures var list := Listing(codesize[..], MAX_CLEN);
              |list| <= 255 && huffval[..|list|] == list
    {
      hide Counted, Total;
      ghost var sizes := codesize[..];
      ListingCount(sizes, counted, 1, 0);
      var p := 0;
      for i := 1 to MAX_CLEN + 1
        invariant p == |Listing(sizes, i - 1)| <= 255 && huffval[..p] == Listing(sizes, i - 1)
      {
        for j := 0 to 256
          invariant p == |Listing(sizes, i - 1) + OfSize(sizes, i, j)| <= 255
          invariant huffval[..p] == Listing(sizes, i - 1) + OfSize(sizes, i, j)
        {
          ListingCount(sizes, counted, i, j + 1);
          if codesize[j] == i {
            huffval[p] := j;
            p := p + 1;
            assert huffval[..p] == huffval[..p - 1] + [j];
          }
        }
      }
    }

    /** Build the table for the symbol counts in freq, which the merging consumes. It fails exactly when
        some optimal code size exceeds 32 bits, which takes nine million symbols. */
    method GenOptimalTable(freq: array<nat>) returns (ok: bool)
      requires Valid() && freq.Length == SYMBOLS && freq as object != huffval
      requires 1 <= Opt.InUse(freq[..256]) <= 254 && Opt.Sum(WithPseudo(freq[..])) <= HUGE
      modifies this, huffval, freq
      ensures Valid() && (ok <==> !Overflows(old(freq[..])))
      ensures !ok ==> Opt.Sum(WithPseudo(old(freq[..]))) >= 9_227_465
      ensures ok ==> Generated(Table(), old(freq[..])) && !sentTable
      ensures ok ==> Legal(bits) && NumSymbols(Table()) <= 255 && GoodSymbols(Table(), 255, NumSymbols(Table()))
      ensures ok ==> forall s: nat :: s in huffval[..NumSymbols(Table())] <==> s < 256 && old(freq[s]) > 0
    {
      hide OptimalSizes, Counted, Full, Fill, Total, Limit, Opt.InUse, Opt.Sum, Legal, GoodSymbols, Listing, Start,
           Depths, DepthBounded;
      ghost var counts := WithPseudo(freq[..]);
      var codesize := CodeSizes(freq);
      ghost var sizes := codesize[..];
      UsedSizes(old(freq[..]), sizes);
      var wide;
      ok, wide := CountSizes(codesize, counts);
      if !ok {
        OverflowNeedsMany(old(freq[..]), sizes);
        return;
      }
      ghost var counted := wide[..];
      CountsAreUnique(sizes, counted);
      CountsStart(counted, sizes);
      LimitLengths(wide);
      DropLast(wide);
      bits := wide[..17];
      ListSymbols(codesize, counted);
      sentTable := false;
      TableIsLegal(sizes, Table());
    }
  }

  lemma CountsStart(bits: seq<nat>, sizes: seq<nat>)
    requires |sizes| == SYMBOLS && Counted(sizes, bits, SYMBOLS) && Full(bits, MAX_CLEN)
    ensures bits[0] == 0 && Total(bits, MAX_CLEN) <= 255
    ensures Full(Limit(bits, MAX_CLEN), 16)
  {
  }

  /** Exactly the symbols in use have codes. */
  lemma UsedSizes(freq: seq<nat>, sizes: seq<nat>)
    requires |freq| == SYMBOLS && OptimalSizes(WithPseudo(freq), sizes) && 1 <= Opt.InUse(freq[..256]) <= 254
    ensures Opt.InUse(WithPseudo(freq)) <= 255
    ensures forall s :: 0 <= s < SYMBOLS ==> (WithPseudo(freq)[s] > 0 <==> sizes[s] > 0)
  {
    hide Opt.Sum, Opt.Cost, Opt.Shares, Pow2;
    var counts := WithPseudo(freq);
    assert counts[..256] == freq[..256];
    SomeInUse(freq[..256]);
    var j :| 0 <= j < 256 && freq[..256][j] > 0;
    forall s | 0 <= s < SYMBOLS ensures counts[s] > 0 <==> sizes[s] > 0 {
      if counts[s] > 0 {
        SizesPositive(counts, sizes, s, if s == j then 256 else j);
      }
    }
  }
}
