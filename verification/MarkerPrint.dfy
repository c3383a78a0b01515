// The bytes of marker segments, and what reading them gives.
module MarkerPrint {
  import opened Powers
  import opened Digits
  import opened Segments
  import opened MarkerSyntax
  import opened MarkerResume

  /** bs stands at position at of d. */
  ghost predicate Has(d: seq<byte>, at: nat, bs: seq<byte>) {
    at + |bs| <= |d| && forall i :: at <= i < at + |bs| ==> d[i] == bs[i - at]
  }

  lemma HasBoth(d: seq<byte>, at: nat, a: seq<byte>, b: seq<byte>)
    requires Has(d, at, a + b)
    ensures Has(d, at, a) && Has(d, at + |a|, b)
  {
    assert forall i :: at <= i < at + |a| ==> d[i] == (a + b)[i - at] == a[i - at];
    assert forall i :: at + |a| <= i < at + |a| + |b| ==> d[i] == (a + b)[i - at] == b[i - at - |a|];
  }

  lemma HasSlice(d: seq<byte>, at: nat, bs: seq<byte>)
    requires Has(d, at, bs)
    ensures d[at..at + |bs|] == bs
  {
  }

  lemma HasWithin(d: seq<byte>, at: nat, bs: seq<byte>)
    requires Has(d, at, bs)
    ensures at + |bs| <= |d|
  {
  }

  lemma ByteAt(d: seq<byte>, at: nat, bs: seq<byte>, k: nat)
    requires Has(d, at, bs) && k < |bs|
    ensures at + |bs| <= |d| && d[at + k] == bs[k]
  {
    assert d[at + k] == bs[at + k - at];
  }

  function TwoBytes(v: nat): (r: seq<byte>)
    ensures |r| == 2
  {
    [v / 256 % 256, v % 256]
  }

  lemma TwoRead(d: seq<byte>, at: nat, v: nat)
    requires Has(d, at, TwoBytes(v)) && v < 0x1_0000
    ensures at + 2 <= |d| && Two(d, at) == v
  {
    assert d[at] == v / 256 && d[at + 1] == v % 256;
  }

  // ----- DQT

  /** Entries i to count of a table in the order given. */
  function QuantBytes(q: Quant, order: seq<nat>, i: nat, count: nat, wide: bool): (r: seq<byte>)
    requires i <= count && IsOrderOf(order, count)
    ensures |r| == (count - i) * (if wide then 2 else 1)
    decreases count - i
  {
    if i == count then []
    else
      (if wide then TwoBytes(q[order[i]]) else [q[order[i]] % 256]) + QuantBytes(q, order, i + 1, count, wide)
  }

  /** base with entries i to count of q. */
  function Copied(base: Quant, q: Quant, order: seq<nat>, i: nat, count: nat): Quant
    requires i <= count && IsOrderOf(order, count)
    decreases count - i
  {
    if i == count then base else Copied(base[order[i] := q[order[i]]], q, order, i + 1, count)
  }

  lemma {:induction false} CopiedEntry(base: Quant, q: Quant, order: seq<nat>, i: nat, count: nat, k: nat)
    requires i <= count && IsOrderOf(order, count) && k < count && (k < i ==> base[order[k]] == q[order[k]])
    ensures Copied(base, q, order, i, count)[order[k]] == q[order[k]]
    decreases count - i
  {
    if i < count {
      CopiedEntry(base[order[i] := q[order[i]]], q, order, i + 1, count, k);
    }
  }

  lemma {:induction false} ValuesRead(d: seq<byte>, at: nat, base: Quant, q: Quant, order: seq<nat>, i: nat,
                                      count: nat, wide: bool)
    requires i <= count && IsOrderOf(order, count) && Has(d, at, QuantBytes(q, order, i, count, wide))
    requires forall k :: 0 <= k < count ==> q[order[k]] < (if wide then 0x1_0000 else 0x100)
    ensures DqtValues(d, at, i, count, wide, order, base)
            == Done(Copied(base, q, order, i, count), at + (count - i) * (if wide then 2 else 1))
    decreases count - i
  {
    if i < count {
      var first := if wide then TwoBytes(q[order[i]]) else [q[order[i]] % 256];
      HasBoth(d, at, first, QuantBytes(q, order, i + 1, count, wide));
      var w := if wide then 2 else 1;
      if wide {
        TwoRead(d, at, q[order[i]]);
      }
      ValuesRead(d, at + w, base[order[i] := q[order[i]]], q, order, i + 1, count, wide);
    }
  }

  function DqtPayload(q: Quant, order: seq<nat>, count: nat, wide: bool, n: nat): (r: seq<byte>)
    requires IsOrderOf(order, count) && n < NUM_QUANT_TBLS
  {
    TwoBytes(count * (if wide then 2 else 1) + 3) + [n + (if wide then 16 else 0)] + QuantBytes(q, order, 0, count,
        wide)
  }

  lemma DqtRead(os: Orders, d: seq<byte>, at: nat, qs: Quants, q: Quant, count: nat, wide: bool, n: nat)
    requires AreOrders(os) && |qs| == NUM_QUANT_TBLS && n < NUM_QUANT_TBLS && 0 < count <= 64
    requires IsOrderOf(OrderFor(os, count), count) && Has(d, at, DqtPayload(q, OrderFor(os, count), count, wide, n))
    requires forall k :: 0 <= k < count ==> q[OrderFor(os, count)[k]] < (if wide then 0x1_0000 else 0x100)
    ensures ParseDqt(os, d, at, qs)
            == Done(qs[n := Some(Copied(Blank(qs[n], count), q, OrderFor(os, count), 0, count))],
                    at + |DqtPayload(q, OrderFor(os, count), count, wide, n)|)
  {
    hide AreOrders, QuantBytes, Copied, DqtValues, OrderFor, Blank;
    var order := OrderFor(os, count);
    var size := count * (if wide then 2 else 1);
    var index: byte := n + (if wide then 16 else 0);
    HasBoth(d, at, TwoBytes(size + 3) + [index], QuantBytes(q, order, 0, count, wide));
    HasBoth(d, at, TwoBytes(size + 3), [index]);
    TwoRead(d, at, size + 3);
    assert d[at + 2] == index;
    assert Entries(size, wide) == count;
    ValuesRead(d, at + 3, Blank(qs[n], count), q, order, 0, count, wide);
    var rs := qs[n := Some(Copied(Blank(qs[n], count), q, order, 0, count))];
    assert DqtTables(os, d, at + 3 + size, 0, rs) == Done(rs, at + 3 + size);
  }

  // ----- DHT

  ghost predicate IsSpec(t: HuffSpec) {
    |t.bits| == 16 && Total(t.bits) == |t.vals| <= 256
  }

  function DhtPayload(t: HuffSpec, ac: bool, n: nat): seq<byte>
    requires n < NUM_HUFF_TBLS
  {
    TwoBytes(|t.vals| + 2 + 1 + 16) + [n + (if ac then 16 else 0)] + t.bits + t.vals
  }

  lemma DhtRead(d: seq<byte>, at: nat, h: Huffs, t: HuffSpec, ac: bool, n: nat)
    requires AreHuffs(h) && n < NUM_HUFF_TBLS && IsSpec(t) && Has(d, at, DhtPayload(t, ac, n))
    ensures ParseDht(d, at, h) == Done(SetHuff(h, (ac, n), t), at + |DhtPayload(t, ac, n)|)
  {
    hide Total;
    var index: byte := n + (if ac then 16 else 0);
    var len := TwoBytes(|t.vals| + 19);
    HasBoth(d, at, len + [index] + t.bits, t.vals);
    HasBoth(d, at, len + [index], t.bits);
    HasBoth(d, at, len, [index]);
    TwoRead(d, at, |t.vals| + 19);
    assert d[at + 2] == index;
    HasSlice(d, at + 3, t.bits);
    HasSlice(d, at + 19, t.vals);
    var g := SetHuff(h, (ac, n), t);
    assert SlotOf(index) == Some((ac, n));
    assert DhtTables(d, at + 19 + |t.vals|, 0, g) == Done(g, at + 19 + |t.vals|);
  }

  // ----- DRI

  lemma DriRead(d: seq<byte>, at: nat, old': nat, v: nat)
    requires v < 0x1_0000 && Has(d, at, TwoBytes(4) + TwoBytes(v))
    ensures ParseDri(d, at, old') == Done(v, at + 4)
  {
    HasBoth(d, at, TwoBytes(4), TwoBytes(v));
    TwoRead(d, at, 4);
    TwoRead(d, at + 2, v);
  }

  // ----- markers passed over

  lemma SkipRead(d: seq<byte>, at: nat, data: seq<byte>)
    requires |data| <= 65533 && Has(d, at, TwoBytes(|data| + 2) + data)
    ensures ParseSkip(d, at) == Done((), at + 2 + |data|)
  {
    HasBoth(d, at, TwoBytes(|data| + 2), data);
    TwoRead(d, at, |data| + 2);
  }

  // ----- DAC

  /** An entry: 0 to 15 for a DC table, 16 to 31 for an AC table. */
  function DacByte(c: Conditioning, index: nat): byte
    requires IsConditioning(c) && index < 2 * NUM_ARITH_TBLS
  {
    if index >= NUM_ARITH_TBLS then c.acK[index - NUM_ARITH_TBLS] % 256
    else (c.dcL[index] + c.dcU[index] * 16) % 256
  }

  function DacBytes(c: Conditioning, entries: seq<nat>): (r: seq<byte>)
    requires IsConditioning(c) && forall i :: 0 <= i < |entries| ==> entries[i] < 2 * NUM_ARITH_TBLS
    ensures |r| == 2 * |entries|
    decreases |entries|
  {
    if entries == [] then [] else [entries[0], DacByte(c, entries[0])] + DacBytes(c, entries[1..])
  }

  /** What the arithmetic coders allow. */
  ghost predicate ConditioningOk(c: Conditioning) {
    && IsConditioning(c)
    && forall i :: 0 <= i < NUM_ARITH_TBLS ==> c.dcL[i] <= c.dcU[i] < 16 && c.acK[i] < 256
  }

  function SetEntries(base: Conditioning, c: Conditioning, entries: seq<nat>): (r: Conditioning)
    requires IsConditioning(base) && IsConditioning(c) && forall i :: 0 <= i < |entries| ==>
             entries[i] < 2 * NUM_ARITH_TBLS
    ensures IsConditioning(r)
    decreases |entries|
  {
    if entries == [] then base else SetEntries(SetConditioning(base, entries[0], DacByte(c, entries[0])), c,
        entries[1..])
  }

  lemma {:induction false} DacEntriesRead(d: seq<byte>, at: nat, base: Conditioning, c: Conditioning, entries: seq<nat>)
    requires IsConditioning(base) && ConditioningOk(c) && forall i :: 0 <= i < |entries| ==>
             entries[i] < 2 * NUM_ARITH_TBLS
    requires Has(d, at, DacBytes(c, entries))
    ensures DacEntries(d, at, 2 * |entries|, base) == Done(SetEntries(base, c, entries), at + 2 * |entries|)
    decreases |entries|
  {
    if entries != [] {
      var e := entries[0];
      var b := DacByte(c, e);
      OneEntryRead(d, at, c, entries);
      if e < NUM_ARITH_TBLS {
        DacByteFits(c, e);
      }
      hide DacBytes, Has, DacByte, SetConditioning, ConditioningOk, IsConditioning;
      DacEntriesRead(d, at + 2, SetConditioning(base, e, b), c, entries[1..]);
      OneEntryOn(d, at, 2 * |entries|, base);
    }
  }

  lemma OneEntryRead(d: seq<byte>, at: nat, c: Conditioning, entries: seq<nat>)
    requires IsConditioning(c) && entries != [] && forall i :: 0 <= i < |entries| ==> entries[i] < 2 * NUM_ARITH_TBLS
    requires Has(d, at, DacBytes(c, entries))
    ensures at + 2 <= |d| && d[at] == entries[0] && d[at + 1] == DacByte(c, entries[0]) &&
            Has(d, at + 2, DacBytes(c, entries[1..]))
  {
    var head := [entries[0], DacByte(c, entries[0])];
    assert DacBytes(c, entries) == head + DacBytes(c, entries[1..]);
    hide DacBytes, DacByte, Has;
    HasBoth(d, at, head, DacBytes(c, entries[1..]));
    ByteAt(d, at, head, 0);
    ByteAt(d, at, head, 1);
  }

  lemma DacByteFits(c: Conditioning, e: nat)
    requires ConditioningOk(c) && e < NUM_ARITH_TBLS
    ensures DacByte(c, e) % 16 <= DacByte(c, e) / 16
  {
    var l, u := c.dcL[e], c.dcU[e];
    DivModUnique(l + u * 16, 16, u, l);
  }

  lemma OneEntryOn(d: seq<byte>, at: nat, length: int, base: Conditioning)
    requires length > 0 && IsConditioning(base) && at + 2 <= |d| && d[at] < 2 * NUM_ARITH_TBLS
    requires d[at] < NUM_ARITH_TBLS ==> d[at + 1] % 16 <= d[at + 1] / 16
    ensures DacEntries(d, at, length, base) == DacEntries(d, at + 2, length - 2, SetConditioning(base, d[at],
            d[at + 1]))
  {
  }

  /** An entry that is read is the entry that was meant, whatever is read after it. */
  lemma {:induction false} EntryRead(base: Conditioning, c: Conditioning, entries: seq<nat>, e: nat)
    requires IsConditioning(base) && ConditioningOk(c) && forall i :: 0 <= i < |entries| ==>
             entries[i] < 2 * NUM_ARITH_TBLS
    requires e < 2 * NUM_ARITH_TBLS && (e in entries || Entry(base, e) == Entry(c, e))
    ensures Entry(SetEntries(base, c, entries), e) == Entry(c, e)
    decreases |entries|
  {
    if entries != [] {
      var b := SetConditioning(base, entries[0], DacByte(c, entries[0]));
      EntrySet(base, entries[0], DacByte(c, entries[0]), e);
      EntryRead(b, c, entries[1..], e);
    }
  }

  lemma DacRead(d: seq<byte>, at: nat, base: Conditioning, c: Conditioning, entries: seq<nat>)
    requires IsConditioning(base) && IsConditioning(c) && ConditioningOk(c) && |entries| <= 32
    requires forall i :: 0 <= i < |entries| ==> entries[i] < 2 * NUM_ARITH_TBLS
    requires Has(d, at, TwoBytes(2 * |entries| + 2) + DacBytes(c, entries))
    ensures ParseDac(d, at, base) == Done(SetEntries(base, c, entries), at + 2 + 2 * |entries|)
  {
    hide Has, TwoBytes, DacBytes, DacEntries, SetEntries, Two, ConditioningOk, IsConditioning;
    HasBoth(d, at, TwoBytes(2 * |entries| + 2), DacBytes(c, entries));
    HasWithin(d, at + 2, DacBytes(c, entries));
    TwoRead(d, at, 2 * |entries| + 2);
    DacEntriesRead(d, at + 2, base, c, entries);
  }

  // ----- SOF

  ghost predicate CompFits(c: CompSpec) {
    c.hSamp < 16 && c.vSamp < 16 && c.quantTbl < NUM_QUANT_TBLS
  }

  function SofCompByte(c: CompSpec): (r: seq<byte>)
    ensures |r| == 3
  {
    [c.id, (c.hSamp * 16 + c.vSamp) % 256, c.quantTbl % 256]
  }

  function SofCompBytes(comps: seq<CompSpec>, n: nat): (r: seq<byte>)
    requires n <= |comps|
    ensures |r| == 3 * n
  {
    if n == 0 then []
    else SofCompBytes(comps, n - 1) + SofCompByte(comps[n - 1])
  }

  /** A component as SOF describes it. */
  function Described(c: CompSpec): CompSpec {
    c.(dcTbl := 0, acTbl := 0)
  }

  function AllDescribed(comps: seq<CompSpec>, n: nat): (r: seq<CompSpec>)
    requires n <= |comps|
    ensures |r| == n
  {
    if n == 0 then [] else AllDescribed(comps, n - 1) + [Described(comps[n - 1])]
  }

  lemma {:induction false} DescribedAt(comps: seq<CompSpec>, n: nat, i: nat)
    requires i < n <= |comps|
    ensures AllDescribed(comps, n)[i] == Described(comps[i])
  {
    if i < n - 1 {
      DescribedAt(comps, n - 1, i);
    }
  }

  lemma {:induction false} SofCompsRead(d: seq<byte>, at: nat, comps: seq<CompSpec>, n: nat)
    requires n <= |comps| && Has(d, at, SofCompBytes(comps, n)) && forall i :: 0 <= i < n ==> CompFits(comps[i])
    ensures SofComps(d, at, n) == AllDescribed(comps, n)
  {
    hide Has;
    if n > 0 {
      var last := SofCompByte(comps[n - 1]);
      assert SofCompBytes(comps, n) == SofCompBytes(comps, n - 1) + last;
      hide SofCompBytes;
      HasBoth(d, at, SofCompBytes(comps, n - 1), last);
      HasWithin(d, at + 3 * (n - 1), last);
      SofCompsRead(d, at, comps, n - 1);
      SofCompRead(d, at + 3 * (n - 1), comps[n - 1]);
    }
  }

  lemma SofCompRead(d: seq<byte>, at: nat, c: CompSpec)
    requires Has(d, at, SofCompByte(c)) && CompFits(c)
    ensures at + 3 <= |d| && SofComp(d, at) == Described(c)
  {
    hide Has;
    var bs := SofCompByte(c);
    ByteAt(d, at, bs, 0);
    ByteAt(d, at, bs, 1);
    ByteAt(d, at, bs, 2);
    DivModUnique(c.hSamp * 16 + c.vSamp, 16, c.hSamp, c.vSamp);
  }

  /** The fixed part of SOF, its length first. */
  function SofHead(precision: byte, height: nat, width: nat, n: nat): (r: seq<byte>)
    ensures |r| == 8
  {
    var length := 3 * n + 2 + 5 + 1;
    [length / 256 % 256, length % 256, precision, height / 256 % 256, height % 256, width / 256 % 256, width % 256,
        n % 256]
  }

  function SofPayload(precision: byte, height: nat, width: nat, comps: seq<CompSpec>): (r: seq<byte>)
    ensures |r| == 8 + 3 * |comps|
  {
    SofHead(precision, height, width, |comps|) + SofCompBytes(comps, |comps|)
  }

  lemma SofHeadRead(d: seq<byte>, at: nat, precision: byte, height: nat, width: nat, n: nat)
    requires Has(d, at, SofHead(precision, height, width, n)) && height < 0x1_0000 && width < 0x1_0000 && n < 256
    ensures at + 8 <= |d| && Two(d, at) == 3 * n + 8 && d[at + 2] == precision
    ensures Two(d, at + 3) == height && Two(d, at + 5) == width && d[at + 7] == n
  {
    hide Has;
    var h := SofHead(precision, height, width, n);
    ByteAt(d, at, h, 0);
    ByteAt(d, at, h, 1);
    ByteAt(d, at, h, 2);
    ByteAt(d, at, h, 3);
    ByteAt(d, at, h, 4);
    ByteAt(d, at, h, 5);
    ByteAt(d, at, h, 6);
    ByteAt(d, at, h, 7);
  }

  lemma SofPayloadIs(precision: byte, height: nat, width: nat, comps: seq<CompSpec>)
    ensures SofPayload(precision, height, width, comps) == SofHead(precision, height, width,
            |comps|) + SofCompBytes(comps, |comps|)
  {
  }

  lemma SofParts(d: seq<byte>, at: nat, precision: byte, height: nat, width: nat, comps: seq<CompSpec>)
    requires Has(d, at, SofPayload(precision, height, width, comps))
    ensures Has(d, at, SofHead(precision, height, width, |comps|)) && Has(d, at + 8, SofCompBytes(comps, |comps|))
    ensures at + 8 + 3 * |comps| <= |d|
  {
    hide *;
    SofPayloadIs(precision, height, width, comps);
    HasBoth(d, at, SofHead(precision, height, width, |comps|), SofCompBytes(comps, |comps|));
    HasWithin(d, at + 8, SofCompBytes(comps, |comps|));
  }

  lemma SofRead(d: seq<byte>, at: nat, precision: byte, height: nat, width: nat, comps: seq<CompSpec>,
                baseline: bool, progressive: bool, arith: bool)
    requires Has(d, at, SofPayload(precision, height, width, comps)) && 0 < height < 0x1_0000 && 0 < width < 0x1_0000
    requires 0 < |comps| < 256 && forall i :: 0 <= i < |comps| ==> CompFits(comps[i])
    ensures ParseSof(d, at, baseline, progressive, arith, false)
            == Done((Frame(baseline, progressive, arith, precision, height, width, |comps|), AllDescribed(comps,
                |comps|)), at + 8 + 3 * |comps|)
  {
    hide *;
    SofParts(d, at, precision, height, width, comps);
    SofHeadRead(d, at, precision, height, width, |comps|);
    SofCompsRead(d, at + 8, comps, |comps|);
    SofIs(d, at, baseline, progressive, arith, false);
  }

  lemma SofIs(d: seq<byte>, at: nat, baseline: bool, progressive: bool, arith: bool, saw: bool)
    requires at + 8 <= |d| && !saw && Two(d, at + 3) > 0 && Two(d, at + 5) > 0 && d[at + 7] > 0
    requires var n: nat := d[at + 7]; Two(d, at) == 8 + 3 * n && at + 8 + 3 * n <= |d|
    ensures var n: nat := d[at + 7];
            ParseSof(d, at, baseline, progressive, arith, saw)
            == Done((Frame(baseline, progressive, arith, d[at + 2], Two(d, at + 3), Two(d, at + 5), n), SofComps(d,
                at + 8, n)), at + 8 + 3 * n)
  {
  }

  // ----- SOS

  predicate InFrame(sc: ScanSpec, comps: seq<CompSpec>) {
    forall j :: 0 <= j < |sc.comps| ==> sc.comps[j] < |comps|
  }

  predicate SameIds(rs: seq<CompSpec>, comps: seq<CompSpec>) {
    |rs| == |comps| && forall j :: 0 <= j < |comps| ==> rs[j].id == comps[j].id
  }

  /** The table numbers sent for a component: 0 for a table the scan does not use. */
  function Selector(c: CompSpec, sc: ScanSpec): byte {
    ((if sc.ss == 0 && sc.ah == 0 then c.dcTbl else 0) * 16 + (if sc.se != 0 then c.acTbl else 0)) % 256
  }

  function SosCompBytes(comps: seq<CompSpec>, sc: ScanSpec, i: nat): (r: seq<byte>)
    requires i <= |sc.comps| && InFrame(sc, comps)
    ensures |r| == 2 * (|sc.comps| - i)
    decreases |sc.comps| - i
  {
    if i == |sc.comps| then []
    else [comps[sc.comps[i]].id, Selector(comps[sc.comps[i]], sc)] + SosCompBytes(comps, sc, i + 1)
  }

  function SosHead(n: nat): (r: seq<byte>)
    ensures |r| == 3
  {
    var length := 2 * n + 2 + 1 + 3;
    [length / 256 % 256, length % 256, n % 256]
  }

  function SosTail(sc: ScanSpec): (r: seq<byte>)
    ensures |r| == 3
  {
    [sc.ss % 256, sc.se % 256, (sc.ah * 16 + sc.al) % 256]
  }

  function SosPayload(comps: seq<CompSpec>, sc: ScanSpec): (r: seq<byte>)
    requires InFrame(sc, comps)
    ensures |r| == 2 * |sc.comps| + 6
  {
    SosHead(|sc.comps|) + SosCompBytes(comps, sc, 0) + SosTail(sc)
  }

  ghost predicate DistinctIds(comps: seq<CompSpec>) {
    forall i, j :: 0 <= i < j < |comps| ==> comps[i].id != comps[j].id
  }

  lemma {:induction false} FindById(comps: seq<CompSpec>, k: nat, i: nat)
    requires DistinctIds(comps) && i <= k < |comps|
    ensures FindComp(comps, comps[k].id, i) == Some(k)
    decreases k - i
  {
    if i < k {
      FindById(comps, k, i + 1);
    }
  }

  /** The reader's components after the selectors from the i-th on. */
  function Selected(rs: seq<CompSpec>, comps: seq<CompSpec>, sc: ScanSpec, i: nat): (r: seq<CompSpec>)
    requires i <= |sc.comps| && |rs| == |comps| && InFrame(sc, comps)
    ensures |r| == |rs|
    decreases |sc.comps| - i
  {
    if i == |sc.comps| then rs
    else Selected(SetTables(rs, sc.comps[i], Selector(comps[sc.comps[i]], sc)), comps, sc, i + 1)
  }

  lemma {:induction false} SelectorsRead(d: seq<byte>, at: nat, rs: seq<CompSpec>, comps: seq<CompSpec>,
                                         sc: ScanSpec, i: nat)
    requires i <= |sc.comps| && |rs| == |comps| && InFrame(sc, comps)
    requires DistinctIds(rs) && SameIds(rs, comps) && Has(d, at, SosCompBytes(comps, sc, i))
    ensures SosComps(d, at, |sc.comps| - i, rs, sc.comps[..i])
            == Done((Selected(rs, comps, sc, i), sc.comps), at + 2 * (|sc.comps| - i))
    decreases |sc.comps| - i
  {
    if i == |sc.comps| {
      assert sc.comps[..i] == sc.comps;
    } else {
      var k := sc.comps[i];
      HasBoth(d, at, [comps[k].id, Selector(comps[k], sc)], SosCompBytes(comps, sc, i + 1));
      assert d[at] == comps[k].id && d[at + 1] == Selector(comps[k], sc);
      FindById(rs, k, 0);
      assert sc.comps[..i + 1] == sc.comps[..i] + [k];
      SelectorsRead(d, at + 2, SetTables(rs, k, Selector(comps[k], sc)), comps, sc, i + 1);
    }
  }

  lemma SosPayloadIs(comps: seq<CompSpec>, sc: ScanSpec)
    requires InFrame(sc, comps)
    ensures SosPayload(comps, sc) == SosHead(|sc.comps|) + SosCompBytes(comps, sc, 0) + SosTail(sc)
  {
  }

  lemma SosParts(d: seq<byte>, at: nat, comps: seq<CompSpec>, sc: ScanSpec)
    requires InFrame(sc, comps) && Has(d, at, SosPayload(comps, sc))
    ensures Has(d, at, SosHead(|sc.comps|)) && Has(d, at + 3, SosCompBytes(comps, sc, 0))
    ensures Has(d, at + 3 + 2 * |sc.comps|, SosTail(sc))
  {
    hide *;
    var n := |sc.comps|;
    SosPayloadIs(comps, sc);
    HasBoth(d, at, SosHead(n) + SosCompBytes(comps, sc, 0), SosTail(sc));
    HasBoth(d, at, SosHead(n), SosCompBytes(comps, sc, 0));
  }

  lemma SosRead(d: seq<byte>, at: nat, rs: seq<CompSpec>, comps: seq<CompSpec>, sc: ScanSpec, progressive: bool)
    requires InFrame(sc, comps) && |sc.comps| <= MAX_COMPS_IN_SCAN && |rs| == |comps|
    requires DistinctIds(rs) && SameIds(rs, comps)
    requires sc.ss < 256 && sc.se < 256 && sc.ah < 16 && sc.al < 16 && (sc.comps == [] ==> progressive)
    requires Has(d, at, SosPayload(comps, sc))
    ensures ParseSos(d, at, true, progressive, rs) == Done((Selected(rs, comps, sc, 0), sc), at + 2 * |sc.comps| + 6)
  {
    hide *;
    SosParts(d, at, comps, sc);
    SosEndsRead(d, at, sc);
    SelectorsRead(d, at + 3, rs, comps, sc, 0);
    assert sc.comps[..0] == [];
    SosIs(d, at, rs, progressive, |sc.comps|, Selected(rs, comps, sc, 0), sc.comps, at + 3 + 2 * |sc.comps|);
  }

  lemma SosIs(d: seq<byte>, at: nat, rs: seq<CompSpec>, progressive: bool, n: nat, rs': seq<CompSpec>, sel: seq<nat>,
              k: nat)
    requires at + 3 <= |d| && d[at + 2] == n <= MAX_COMPS_IN_SCAN && (n == 0 ==> progressive)
    requires Two(d, at) == 2 * n + 6 && k + 3 <= |d| && SosComps(d, at + 3, n, rs, []) == Done((rs', sel), k)
    ensures ParseSos(d, at, true, progressive, rs)
            == Done((rs', ScanSpec(sel, d[k], d[k + 1], d[k + 2] / 16, d[k + 2] % 16)), k + 3)
  {
    hide SosComps, Two;
  }

  lemma SosEndsRead(d: seq<byte>, at: nat, sc: ScanSpec)
    requires Has(d, at, SosHead(|sc.comps|)) && Has(d, at + 3 + 2 * |sc.comps|, SosTail(sc)) &&
             |sc.comps| <= MAX_COMPS_IN_SCAN
    requires sc.ss < 256 && sc.se < 256 && sc.ah < 16 && sc.al < 16
    ensures var k := at + 3 + 2 * |sc.comps|;
            && k + 3 <= |d| && Two(d, at) == 2 * |sc.comps| + 6 && d[at + 2] == |sc.comps|
            && d[k] == sc.ss && d[k + 1] == sc.se && d[k + 2] / 16 == sc.ah && d[k + 2] % 16 == sc.al
  {
    hide Has;
    var k := at + 3 + 2 * |sc.comps|;
    ByteAt(d, at, SosHead(|sc.comps|), 0);
    ByteAt(d, at, SosHead(|sc.comps|), 1);
    ByteAt(d, at, SosHead(|sc.comps|), 2);
    ByteAt(d, k, SosTail(sc), 0);
    ByteAt(d, k, SosTail(sc), 1);
    ByteAt(d, k, SosTail(sc), 2);
  }
}
