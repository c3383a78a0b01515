// Reading a marker again after its input ended first, with whatever was changed, comes to the same end.
module MarkerResume {
  import opened Digits
  import opened Segments
  import opened MarkerSyntax

  /** The same end: the same value and position, or an error, or more input needed. */
  ghost predicate Same<T(!new)>(p: Parsed<T>, q: Parsed<T>) {
    if p.NeedMore? then q.NeedMore? else p == q
  }

  /** More input changes nothing once the end is reached. */
  ghost predicate Settled<T(!new)>(p: Parsed<T>, q: Parsed<T>) {
    p.NeedMore? || p == q
  }

  // ----- DAC

  function Entry(c: Conditioning, index: nat): (nat, nat)
    requires IsConditioning(c) && index < 2 * NUM_ARITH_TBLS
  {
    if index >= NUM_ARITH_TBLS then (c.acK[index - NUM_ARITH_TBLS], 0) else (c.dcL[index], c.dcU[index])
  }

  /** The rest of the marker defines this entry. */
  predicate DacSets(d: seq<byte>, at: nat, length: int, index: nat)
    decreases length
  {
    length > 0 && at + 2 <= |d| && (d[at] == index || DacSets(d, at + 2, length - 2, index))
  }

  lemma {:induction false} DacForgets(d: seq<byte>, at: nat, length: int, c: Conditioning, e: Conditioning)
    requires IsConditioning(c) && IsConditioning(e) && at <= |d|
    requires forall i: nat :: i < 2 * NUM_ARITH_TBLS && !DacSets(d, at, length, i) ==> Entry(c, i) == Entry(e, i)
    ensures Same(DacEntries(d, at, length, c), DacEntries(d, at, length, e))
    decreases length
  {
    if length <= 0 {
      SameEntries(c, e);
    } else if at + 2 <= |d| && d[at] < 2 * NUM_ARITH_TBLS {
      var c', e' := SetConditioning(c, d[at], d[at + 1]), SetConditioning(e, d[at], d[at + 1]);
      forall i: nat | i < 2 * NUM_ARITH_TBLS && !DacSets(d, at + 2, length - 2, i)
        ensures Entry(c', i) == Entry(e', i)
      {
        EntrySet(c, d[at], d[at + 1], i);
        EntrySet(e, d[at], d[at + 1], i);
      }
      DacForgets(d, at + 2, length - 2, c', e');
    }
  }

  lemma EntrySet(c: Conditioning, index: nat, val: byte, i: nat)
    requires IsConditioning(c) && index < 2 * NUM_ARITH_TBLS && i < 2 * NUM_ARITH_TBLS
    ensures Entry(SetConditioning(c, index, val), i)
            == if i != index then Entry(c, i) else if i >= NUM_ARITH_TBLS then (val, 0) else (val % 16, val / 16)
  {
  }

  lemma SameEntries(c: Conditioning, e: Conditioning)
    requires IsConditioning(c) && IsConditioning(e)
    requires forall i: nat :: i < 2 * NUM_ARITH_TBLS ==> Entry(c, i) == Entry(e, i)
    ensures c == e
  {
    forall i: nat | i < NUM_ARITH_TBLS
      ensures c.dcL[i] == e.dcL[i] && c.dcU[i] == e.dcU[i] && c.acK[i] == e.acK[i]
    {
      var j := i + NUM_ARITH_TBLS;
      assert Entry(c, i) == Entry(e, i) && Entry(c, j) == Entry(e, j);
    }
    assert c.dcL == e.dcL && c.dcU == e.dcU && c.acK == e.acK;
  }

  lemma {:induction false} DacKeeps(src: seq<byte>, d: seq<byte>, at: nat, length: int, c: Conditioning, i: nat)
    requires src <= d && at <= |src| && IsConditioning(c) && i < 2 * NUM_ARITH_TBLS
    ensures var p := DacEntries(src, at, length, c);
            && Settled(p, DacEntries(d, at, length, c))
            && (p.NeedMore? && !DacSets(d, at, length, i) ==> Entry(p.value, i) == Entry(c, i))
    decreases length
  {
    if length > 0 && at + 2 <= |src| && src[at] < 2 * NUM_ARITH_TBLS {
      EntrySet(c, src[at], src[at + 1], i);
      DacKeeps(src, d, at + 2, length - 2, SetConditioning(c, src[at], src[at + 1]), i);
    }
  }

  lemma DacResumes(src: seq<byte>, d: seq<byte>, at: nat, c: Conditioning)
    requires src <= d && at <= |src| && IsConditioning(c)
    ensures var p := ParseDac(src, at, c);
            && Settled(p, ParseDac(d, at, c))
            && (p.NeedMore? ==> Same(ParseDac(d, at, p.value), ParseDac(d, at, c)))
  {
    hide DacEntries, Entry, DacSets, IsConditioning;
    if |src| >= at + 2 {
      var length := Two(src, at) - 2;
      var p := DacEntries(src, at + 2, length, c);
      DacKeeps(src, d, at + 2, length, c, 0);
      if p.NeedMore? {
        forall i: nat | i < 2 * NUM_ARITH_TBLS && !DacSets(d, at + 2, length, i)
          ensures Entry(p.value, i) == Entry(c, i)
        {
          DacKeeps(src, d, at + 2, length, c, i);
        }
        DacForgets(d, at + 2, length, p.value, c);
      }
    }
  }

  // ----- DHT

  function TableAt(h: Huffs, slot: (bool, nat)): Option<HuffSpec>
    requires AreHuffs(h) && slot.1 < NUM_HUFF_TBLS
  {
    if slot.0 then h.ac[slot.1] else h.dc[slot.1]
  }

  predicate DhtSets(d: seq<byte>, at: nat, length: int, slot: (bool, nat))
    decreases length
  {
    length > 16 && at + 17 <= |d| &&
    var count := Total(d[at + 1..at + 17]);
    count <= length - 17 && (SlotOf(d[at]) == Some(slot) || DhtSets(d, at + 17 + count, length - 17 - count, slot))
  }

  lemma {:induction false} DhtForgets(d: seq<byte>, at: nat, length: int, h: Huffs, g: Huffs)
    requires AreHuffs(h) && AreHuffs(g) && at <= |d|
    requires forall slot: (bool, nat) :: slot.1 < NUM_HUFF_TBLS && !DhtSets(d, at, length, slot) ==>
             TableAt(h, slot) == TableAt(g, slot)
    ensures Same(DhtTables(d, at, length, h), DhtTables(d, at, length, g))
    decreases length
  {
    hide Total;
    if length <= 16 {
      SameTables(h, g);
    } else if at + 17 <= |d| {
      var bits := d[at + 1..at + 17];
      var count := Total(bits);
      if count <= 256 && count <= length - 17 && at + 17 + count <= |d| && SlotOf(d[at]).Some? {
        var slot, t := SlotOf(d[at]).value, HuffSpec(bits, d[at + 17..at + 17 + count]);
        DhtForgets(d, at + 17 + count, length - 17 - count, SetHuff(h, slot, t), SetHuff(g, slot, t));
      }
    }
  }

  lemma SameTables(h: Huffs, g: Huffs)
    requires AreHuffs(h) && AreHuffs(g)
    requires forall slot: (bool, nat) :: slot.1 < NUM_HUFF_TBLS ==> TableAt(h, slot) == TableAt(g, slot)
    ensures h == g
  {
    forall i: nat | i < NUM_HUFF_TBLS
      ensures h.dc[i] == g.dc[i] && h.ac[i] == g.ac[i]
    {
      var dc, ac := (false, i), (true, i);
      assert TableAt(h, dc) == TableAt(g, dc) && TableAt(h, ac) == TableAt(g, ac);
    }
    assert h.dc == g.dc && h.ac == g.ac;
  }

  lemma {:induction false} DhtKeeps(src: seq<byte>, d: seq<byte>, at: nat, length: int, h: Huffs, slot: (bool, nat))
    requires src <= d && at <= |src| && AreHuffs(h) && slot.1 < NUM_HUFF_TBLS
    ensures var p := DhtTables(src, at, length, h);
            && Settled(p, DhtTables(d, at, length, h))
            && (p.NeedMore? && !DhtSets(d, at, length, slot) ==> TableAt(p.value, slot) == TableAt(h, slot))
    decreases length
  {
    hide Total;
    if length > 16 && at + 17 <= |src| {
      var bits := src[at + 1..at + 17];
      assert d[at + 1..at + 17] == bits;
      var count := Total(bits);
      if count <= 256 && count <= length - 17 && at + 17 + count <= |src| && SlotOf(src[at]).Some? {
        var t := HuffSpec(bits, src[at + 17..at + 17 + count]);
        assert d[at + 17..at + 17 + count] == src[at + 17..at + 17 + count];
        DhtKeeps(src, d, at + 17 + count, length - 17 - count, SetHuff(h, SlotOf(src[at]).value, t), slot);
      }
    }
  }

  lemma DhtResumes(src: seq<byte>, d: seq<byte>, at: nat, h: Huffs)
    requires src <= d && at <= |src| && AreHuffs(h)
    ensures var p := ParseDht(src, at, h);
            && Settled(p, ParseDht(d, at, h))
            && (p.NeedMore? ==> Same(ParseDht(d, at, p.value), ParseDht(d, at, h)))
  {
    hide DhtTables, TableAt, DhtSets, AreHuffs;
    if |src| >= at + 2 {
      var length := Two(src, at) - 2;
      var p := DhtTables(src, at + 2, length, h);
      DhtKeeps(src, d, at + 2, length, h, (false, 0));
      if p.NeedMore? {
        forall slot: (bool, nat) | slot.1 < NUM_HUFF_TBLS && !DhtSets(d, at + 2, length, slot)
          ensures TableAt(p.value, slot) == TableAt(h, slot)
        {
          DhtKeeps(src, d, at + 2, length, h, slot);
        }
        DhtForgets(d, at + 2, length, p.value, h);
      }
    }
  }

  // ----- DQT

  predicate ComesUp(order: seq<nat>, i: nat, count: nat, k: nat) {
    exists j :: i <= j < count && j < |order| && order[j] == k
  }

  lemma {:induction false} ValuesForget(d: seq<byte>, at: nat, i: nat, count: nat, wide: bool, order: seq<nat>,
                                        q: Quant, r: Quant)
    requires i <= count && IsOrderOf(order, count) && at <= |d|
    requires forall k :: 0 <= k < 64 && !ComesUp(order, i, count, k) ==> q[k] == r[k]
    ensures Same(DqtValues(d, at, i, count, wide, order, q), DqtValues(d, at, i, count, wide, order, r))
    decreases count - i
  {
    var w := if wide then 2 else 1;
    if i == count {
      assert q == r;
    } else if at + w <= |d| {
      var v: nat := if wide then Two(d, at) else d[at];
      var a, b := q[order[i] := v], r[order[i] := v];
      forall k: nat | k < 64 && !ComesUp(order, i + 1, count, k)
        ensures a[k] == b[k]
      {
        assert ComesUp(order, i, count, k) ==> order[i] == k;
      }
      ValuesForget(d, at + w, i + 1, count, wide, order, a, b);
    }
  }

  lemma {:induction false} ValuesSettle(src: seq<byte>, d: seq<byte>, at: nat, i: nat, count: nat, wide: bool,
                                        order: seq<nat>, q: Quant)
    requires src <= d && at <= |src| && i <= count && IsOrderOf(order, count)
    ensures Settled(DqtValues(src, at, i, count, wide, order, q), DqtValues(d, at, i, count, wide, order, q))
    decreases count - i
  {
    var w := if wide then 2 else 1;
    if i < count && at + w <= |src| {
      ValuesSettle(src, d, at + w, i + 1, count, wide, order, q[order[i] := if wide then Two(src, at) else src[at]]);
    }
  }

  /** A table read does not depend on what it was before. */
  lemma TableForgets(os: Orders, d: seq<byte>, at: nat, count: nat, wide: bool, q: Option<Quant>, r: Option<Quant>)
    requires AreOrders(os) && count <= 64 && at <= |d|
    ensures IsOrderOf(OrderFor(os, count), count)
    ensures Same(DqtValues(d, at, 0, count, wide, OrderFor(os, count), Blank(q, count)),
                 DqtValues(d, at, 0, count, wide, OrderFor(os, count), Blank(r, count)))
  {
    hide DqtValues;
    OrderIs(os, count);
    if count == 64 {
      forall k: nat | k < 64
        ensures ComesUp(OrderFor(os, count), 0, count, k)
      {
        assert Reaches(os.full, k);
      }
    }
    ValuesForget(d, at, 0, count, wide, OrderFor(os, count), Blank(q, count), Blank(r, count));
  }

  predicate DqtSets(d: seq<byte>, at: nat, length: int, n: nat)
    decreases length
  {
    length > 0 && at < |d| &&
    var wide := d[at] / 16 != 0;
    var count := Entries(length - 1, wide);
    var size := if wide then 2 * count else count;
    d[at] % 16 == n || DqtSets(d, at + 1 + size, length - 1 - size, n)
  }

  lemma {:induction false} ValuesLength(d: seq<byte>, at: nat, i: nat, count: nat, wide: bool, order: seq<nat>,
                                        q: Quant)
    requires i <= count && IsOrderOf(order, count) && at <= |d|
    ensures var r := DqtValues(d, at, i, count, wide, order, q);
            r.Done? ==> r.next == at + (if wide then 2 * (count - i) else count - i)
    decreases count - i
  {
    var w := if wide then 2 else 1;
    if i < count && at + w <= |d| {
      ValuesLength(d, at + w, i + 1, count, wide, order, q[order[i] := if wide then Two(d, at) else d[at]]);
    }
  }

  lemma {:induction false} DqtForgets(os: Orders, d: seq<byte>, at: nat, length: int, qs: Quants, rs: Quants)
    requires AreOrders(os) && |qs| == |rs| == NUM_QUANT_TBLS && at <= |d|
    requires forall n: nat :: n < NUM_QUANT_TBLS && !DqtSets(d, at, length, n) ==> qs[n] == rs[n]
    ensures Same(DqtTables(os, d, at, length, qs), DqtTables(os, d, at, length, rs))
    decreases length
  {
    hide DqtValues, AreOrders, OrderFor, Blank, IsOrderOf;
    if length <= 0 {
      assert qs == rs;
    } else if at < |d| && d[at] % 16 < NUM_QUANT_TBLS {
      var wide, n := d[at] / 16 != 0, d[at] % 16;
      var count := Entries(length - 1, wide);
      OrderIs(os, count);
      TableForgets(os, d, at + 1, count, wide, qs[n], rs[n]);
      ValuesLength(d, at + 1, 0, count, wide, OrderFor(os, count), Blank(qs[n], count));
      var p := DqtValues(d, at + 1, 0, count, wide, OrderFor(os, count), Blank(qs[n], count));
      if p.Done? {
        DqtForgets(os, d, p.next, length - 1 - (if wide then 2 * count else count), qs[n := Some(p.value)],
            rs[n := Some(p.value)]);
      }
    }
  }

  lemma {:induction false} DqtKeeps(os: Orders, src: seq<byte>, d: seq<byte>, at: nat, length: int, qs: Quants, k: nat)
    requires src <= d && at <= |src| && AreOrders(os) && |qs| == NUM_QUANT_TBLS && k < NUM_QUANT_TBLS
    ensures var p := DqtTables(os, src, at, length, qs);
            && Settled(p, DqtTables(os, d, at, length, qs))
            && (p.NeedMore? && !DqtSets(d, at, length, k) ==> p.value[k] == qs[k])
    decreases length
  {
    hide DqtValues, AreOrders, OrderFor, Blank, IsOrderOf;
    if length > 0 && at < |src| && src[at] % 16 < NUM_QUANT_TBLS {
      var wide, n := src[at] / 16 != 0, src[at] % 16;
      var count := Entries(length - 1, wide);
      OrderIs(os, count);
      ValuesSettle(src, d, at + 1, 0, count, wide, OrderFor(os, count), Blank(qs[n], count));
      ValuesLength(src, at + 1, 0, count, wide, OrderFor(os, count), Blank(qs[n], count));
      var p := DqtValues(src, at + 1, 0, count, wide, OrderFor(os, count), Blank(qs[n], count));
      if p.Done? {
        DqtKeeps(os, src, d, p.next, length - 1 - (if wide then 2 * count else count), qs[n := Some(p.value)], k);
      }
    }
  }

  lemma DqtResumes(os: Orders, src: seq<byte>, d: seq<byte>, at: nat, qs: Quants)
    requires src <= d && at <= |src| && AreOrders(os) && |qs| == NUM_QUANT_TBLS
    ensures var p := ParseDqt(os, src, at, qs);
            && Settled(p, ParseDqt(os, d, at, qs))
            && (p.NeedMore? ==> Same(ParseDqt(os, d, at, p.value), ParseDqt(os, d, at, qs)))
  {
    hide DqtTables, DqtSets, AreOrders;
    if |src| >= at + 2 {
      var length := Two(src, at) - 2;
      var p := DqtTables(os, src, at + 2, length, qs);
      DqtKeeps(os, src, d, at + 2, length, qs, 0);
      if p.NeedMore? {
        forall n: nat | n < NUM_QUANT_TBLS && !DqtSets(d, at + 2, length, n)
          ensures p.value[n] == qs[n]
        {
          DqtKeeps(os, src, d, at + 2, length, qs, n);
        }
        DqtForgets(os, d, at + 2, length, p.value, qs);
      }
    }
  }

  // ----- SOS

  predicate SosSets(d: seq<byte>, at: nat, n: nat, comps: seq<CompSpec>, ci: nat)
    decreases n
  {
    n > 0 && at + 2 <= |d| && FindComp(comps, d[at], 0).Some?
    && (FindComp(comps, d[at], 0) == Some(ci) || SosSets(d, at + 2, n - 1, comps, ci))
  }

  /** All but the table numbers. */
  predicate Alike(comps: seq<CompSpec>, others: seq<CompSpec>) {
    |comps| == |others| && forall i :: 0 <= i < |comps| ==>
        comps[i] == others[i].(dcTbl := comps[i].dcTbl, acTbl := comps[i].acTbl)
  }

  lemma {:induction false} FindAlike(comps: seq<CompSpec>, others: seq<CompSpec>, id: byte, i: nat)
    requires Alike(comps, others) && i <= |comps|
    ensures FindComp(comps, id, i) == FindComp(others, id, i)
    decreases |comps| - i
  {
    if i < |comps| {
      FindAlike(comps, others, id, i + 1);
    }
  }

  lemma {:induction false} SetsAlike(d: seq<byte>, at: nat, n: nat, comps: seq<CompSpec>, others: seq<CompSpec>,
                                     ci: nat)
    requires Alike(comps, others)
    ensures SosSets(d, at, n, comps, ci) == SosSets(d, at, n, others, ci)
    decreases n
  {
    if n > 0 && at + 2 <= |d| {
      FindAlike(comps, others, d[at], 0);
      SetsAlike(d, at + 2, n - 1, comps, others, ci);
    }
  }

  lemma {:induction false} SosForgets(d: seq<byte>, at: nat, n: nat, comps: seq<CompSpec>, others: seq<CompSpec>,
                                      sel: seq<nat>)
    requires Alike(comps, others) && at <= |d|
    requires forall ci: nat :: ci < |comps| && !SosSets(d, at, n, comps, ci) ==> comps[ci] == others[ci]
    ensures Same(SosComps(d, at, n, comps, sel), SosComps(d, at, n, others, sel))
    decreases n
  {
    if n == 0 {
      assert comps == others;
    } else if at + 2 <= |d| {
      FindAlike(comps, others, d[at], 0);
      FoundComp(comps, d[at], 0);
      if FindComp(comps, d[at], 0).Some? {
        var k := FindComp(comps, d[at], 0).value;
        var a, b := SetTables(comps, k, d[at + 1]), SetTables(others, k, d[at + 1]);
        forall ci: nat | ci < |a| && !SosSets(d, at + 2, n - 1, a, ci)
          ensures a[ci] == b[ci]
        {
          SetsAlike(d, at + 2, n - 1, a, comps, ci);
        }
        SosForgets(d, at + 2, n - 1, a, b, sel + [k]);
      }
    }
  }

  lemma {:induction false} SosKeeps(src: seq<byte>, d: seq<byte>, at: nat, n: nat, comps: seq<CompSpec>,
                                    sel: seq<nat>, ci: nat)
    requires src <= d && at <= |src|
    ensures var p := SosComps(src, at, n, comps, sel);
            && Settled(p, SosComps(d, at, n, comps, sel))
            && (!p.Bad? ==> Alike(p.value.0, comps)
                                && (ci < |comps| && !SosSets(d, at, n, comps, ci) ==> p.value.0[ci] == comps[ci]))
    decreases n
  {
    if n > 0 && at + 2 <= |src| {
      FoundComp(comps, src[at], 0);
      if FindComp(comps, src[at], 0).Some? {
        var k := FindComp(comps, src[at], 0).value;
        var a := SetTables(comps, k, src[at + 1]);
        SosKeeps(src, d, at + 2, n - 1, a, sel + [k], ci);
        SetsAlike(d, at + 2, n - 1, a, comps, ci);
      }
    }
  }

  lemma SosResumes(src: seq<byte>, d: seq<byte>, at: nat, sawSof: bool, progressive: bool, comps: seq<CompSpec>)
    requires src <= d && at <= |src|
    ensures var p := ParseSos(src, at, sawSof, progressive, comps);
            && Settled(p, ParseSos(d, at, sawSof, progressive, comps))
            && (p.NeedMore? ==> Same(ParseSos(d, at, sawSof, progressive, p.value.0), ParseSos(d, at, sawSof, progressive, comps)))
  {
    hide SosComps, SosSets, Alike;
    if sawSof && |src| >= at + 3 && src[at + 2] <= MAX_COMPS_IN_SCAN {
      var n := src[at + 2];
      SosEnds(src, d, at + 3, n, comps);
    }
  }

  lemma SosEnds(src: seq<byte>, d: seq<byte>, at: nat, n: nat, comps: seq<CompSpec>)
    requires src <= d && at <= |src|
    ensures var p := SosComps(src, at, n, comps, []);
            && Settled(p, SosComps(d, at, n, comps, []))
            && (p.NeedMore? || p.Done? ==> Same(SosComps(d, at, n, p.value.0, []), SosComps(d, at, n, comps, [])))
  {
    hide SosComps, SosSets;
    var p := SosComps(src, at, n, comps, []);
    SosKeeps(src, d, at, n, comps, [], 0);
    if p.NeedMore? || p.Done? {
      forall ci: nat | ci < |comps| && !SosSets(d, at, n, comps, ci)
        ensures p.value.0[ci] == comps[ci]
      {
        SosKeeps(src, d, at, n, comps, [], ci);
      }
      forall ci: nat | ci < |comps| && !SosSets(d, at, n, p.value.0, ci)
        ensures p.value.0[ci] == comps[ci]
      {
        SetsAlike(d, at, n, p.value.0, comps, ci);
      }
      SosForgets(d, at, n, p.value.0, comps, []);
    }
  }

  // ----- any marker

  /** What a marker routine may leave when it suspends. */
  ghost predicate Partial(os: Orders, src: seq<byte>, code: nat, at: nat, st: State, left: State)
    requires AreOrders(os) && IsState(st) && at <= |src|
  {
    var p := Step(os, src, code, at, st);
    && p.NeedMore? && IsState(left)
    && if IsSof(code) then left == st.(frame := left.frame, comps := left.comps)
       else if code == M_SOS then left == p.value.(scan := left.scan)
       else left == p.value
  }

  lemma StepSettles(os: Orders, src: seq<byte>, d: seq<byte>, code: nat, at: nat, st: State)
    requires AreOrders(os) && IsState(st) && at <= |src| && src <= d
    ensures Settled(Step(os, src, code, at, st), Step(os, d, code, at, st))
  {
    hide AreOrders, ParseSos, ParseDac, ParseDht, ParseDqt;
    if IsSof(code) {
      SofSettles(src, d, at, code == M_SOF0, code == M_SOF2 || code == M_SOF10, code == M_SOF9 ||
          code == M_SOF10, st.sawSof);
    } else if code == M_SOS {
      SosResumes(src, d, at, st.sawSof, st.frame.progressive, st.comps);
    } else if code == M_DAC {
      DacResumes(src, d, at, st.cond);
    } else if code == M_DHT {
      DhtResumes(src, d, at, st.huffs);
    } else if code == M_DQT {
      DqtResumes(os, src, d, at, st.quants);
    }
  }

  lemma {:induction false} SofCompsSettle(src: seq<byte>, d: seq<byte>, at: nat, n: nat)
    requires src <= d && at + 3 * n <= |src|
    ensures SofComps(src, at, n) == SofComps(d, at, n)
  {
    if n > 0 {
      SofCompsSettle(src, d, at, n - 1);
    }
  }

  lemma SofSettles(src: seq<byte>, d: seq<byte>, at: nat, baseline: bool, progressive: bool, arith: bool, saw: bool)
    requires src <= d
    ensures Settled(ParseSof(src, at, baseline, progressive, arith, saw), ParseSof(d, at, baseline, progressive,
            arith, saw))
  {
    if |src| >= at + 8 {
      var n: nat := src[at + 7];
      if |src| >= at + 8 + 3 * n {
        SofCompsSettle(src, d, at + 8, n);
      }
    }
  }

  /** Called again after suspending, with more input, the routine comes to the end it would have come to. */
  lemma StepResumes(os: Orders, src: seq<byte>, d: seq<byte>, code: nat, at: nat, st: State, left: State)
    requires AreOrders(os) && IsState(st) && at <= |src| && src <= d && Partial(os, src, code, at, st, left)
    ensures Same(Step(os, d, code, at, left), Step(os, d, code, at, st))
  {
    hide AreOrders, ParseSos, ParseDac, ParseDht, ParseDqt, ParseSof;
    if code == M_SOS {
      SosResumes(src, d, at, st.sawSof, st.frame.progressive, st.comps);
    } else if code == M_DAC {
      DacResumes(src, d, at, st.cond);
    } else if code == M_DHT {
      DhtResumes(src, d, at, st.huffs);
    } else if code == M_DQT {
      DqtResumes(os, src, d, at, st.quants);
    }
  }

  // ----- reading on

  /** What reading comes to, with or without a marker pending. */
  function Future(os: Orders, d: seq<byte>, unread: nat, at: nat, st: State): Outcome
    requires AreOrders(os) && IsState(st) && at <= |d|
  {
    if unread != 0 then RunCode(os, d, unread, at, st) else Run(os, d, at, st)
  }

  /** Whatever else arrives, reading comes to the same from here as from there. */
  ghost predicate SameFuture(os: Orders, src: seq<byte>, u: nat, at: nat, st: State, u': nat, at': nat, st': State) {
    && AreOrders(os) && IsState(st) && IsState(st') && at <= |src| && at' <= |src|
    && forall d: seq<byte> :: src <= d ==> Future(os, d, u, at, st) == Future(os, d, u', at', st')
  }

  lemma FutureHere(os: Orders, src: seq<byte>, u: nat, at: nat, st: State)
    requires AreOrders(os) && IsState(st) && at <= |src|
    ensures SameFuture(os, src, u, at, st, u, at, st)
  {
  }

  lemma FutureFurther(os: Orders, src: seq<byte>, u: nat, at: nat, st: State, u': nat, at': nat, st': State, v: nat,
                      bt: nat, t: State)
    requires SameFuture(os, src, u, at, st, u', at', st') && SameFuture(os, src, u', at', st', v, bt, t)
    ensures SameFuture(os, src, u, at, st, v, bt, t)
  {
    hide Future;
  }

  /** More input, the same future. */
  lemma FutureMore(os: Orders, src: seq<byte>, more: seq<byte>, u: nat, at: nat, st: State, u': nat, at': nat,
                   st': State)
    requires SameFuture(os, src, u, at, st, u', at', st')
    ensures SameFuture(os, src + more, u, at, st, u', at', st')
  {
    hide Future;
    forall d: seq<byte> | src + more <= d
      ensures Future(os, d, u, at, st) == Future(os, d, u', at', st')
    {
      assert src <= d;
    }
  }

  lemma FutureSuspended(os: Orders, src: seq<byte>, code: nat, at: nat, st: State, left: State)
    requires AreOrders(os) && IsState(st) && at <= |src| && Partial(os, src, code, at, st, left) && code != 0
    ensures SameFuture(os, src, code, at, st, code, at, left)
    ensures Future(os, src, code, at, left) == Short
  {
    hide AreOrders, Step, Run, Partial, IsState;
    PartialMeans(os, src, code, at, st, left);
    forall d: seq<byte> | src <= d
      ensures Future(os, d, code, at, st) == Future(os, d, code, at, left)
    {
      StepResumes(os, src, d, code, at, st, left);
    }
    StepResumes(os, src, src, code, at, st, left);
  }

  lemma PartialMeans(os: Orders, src: seq<byte>, code: nat, at: nat, st: State, left: State)
    requires AreOrders(os) && IsState(st) && at <= |src| && Partial(os, src, code, at, st, left)
    ensures Step(os, src, code, at, st).NeedMore? && IsState(left) && code != M_EOI
  {
  }

  lemma FutureDone(os: Orders, src: seq<byte>, code: nat, at: nat, st: State)
    requires AreOrders(os) && IsState(st) && at <= |src| && Step(os, src, code, at, st).Done? && code != 0 &&
             code != M_SOS && code != M_EOI
    ensures SameFuture(os, src, code, at, st, 0, Step(os, src, code, at, st).next, Step(os, src, code, at, st).value)
  {
    hide AreOrders, Step, Run, IsState;
    forall d: seq<byte> | src <= d
      ensures Future(os, d, code, at, st) == Future(os, d, 0, Step(os, src, code, at, st).next, Step(os, src, code,
              at, st).value)
    {
      StepSettles(os, src, d, code, at, st);
    }
  }

  /** Reading comes to outcome o, whatever else arrives. */
  ghost predicate Comes(os: Orders, src: seq<byte>, u: nat, at: nat, st: State, o: Outcome) {
    AreOrders(os) && IsState(st) && at <= |src| && forall d: seq<byte> :: src <= d ==> Future(os, d, u, at, st) == o
  }

  lemma ComesThrough(os: Orders, src: seq<byte>, u: nat, at: nat, st: State, u': nat, at': nat, st': State, o: Outcome)
    requires SameFuture(os, src, u, at, st, u', at', st') && Comes(os, src, u', at', st', o)
    ensures Comes(os, src, u, at, st, o)
  {
    hide Future;
  }

  lemma FutureEoi(os: Orders, src: seq<byte>, at: nat, st: State)
    requires AreOrders(os) && IsState(st) && at <= |src|
    ensures Comes(os, src, M_EOI, at, st, ReachedEoi(st, at))
  {
  }

  lemma FutureFailed(os: Orders, src: seq<byte>, code: nat, at: nat, st: State)
    requires AreOrders(os) && IsState(st) && at <= |src| && code != 0 && code != M_EOI &&
             Step(os, src, code, at, st).Bad?
    ensures Comes(os, src, code, at, st, Error)
  {
    hide AreOrders, Step, Run, IsState;
    forall d: seq<byte> | src <= d
      ensures Future(os, d, code, at, st) == Error
    {
      StepSettles(os, src, d, code, at, st);
    }
  }

  lemma FutureSos(os: Orders, src: seq<byte>, at: nat, st: State)
    requires AreOrders(os) && IsState(st) && at <= |src| && Step(os, src, M_SOS, at, st).Done?
    ensures var p := Step(os, src, M_SOS, at, st); Comes(os, src, M_SOS, at, st, ReachedSos(p.value, p.next))
  {
    hide AreOrders, Step, Run, IsState;
    var p := Step(os, src, M_SOS, at, st);
    forall d: seq<byte> | src <= d
      ensures Future(os, d, M_SOS, at, st) == ReachedSos(p.value, p.next)
    {
      StepSettles(os, src, d, M_SOS, at, st);
    }
  }

  /** Where the datastream must start with SOI. */
  lemma FutureFirst(os: Orders, src: seq<byte>, at: nat, st: State)
    requires AreOrders(os) && IsState(st) && at <= |src| && !st.sawSoi
    ensures if |src| < at + 2 then Future(os, src, 0, at, st) == Short
            else if src[at] != 0xFF || src[at + 1] != M_SOI then Comes(os, src, 0, at, st, Error)
            else SameFuture(os, src, 0, at, st, M_SOI, at + 2, st)
  {
  }

  lemma FutureFound(os: Orders, src: seq<byte>, at: nat, st: State)
    requires AreOrders(os) && IsState(st) && at <= |src| && st.sawSoi && FindMarker(src, at).Found?
    ensures var f := FindMarker(src, at); SameFuture(os, src, 0, at, st, f.code, f.next, st)
  {
    hide AreOrders, RunCode, IsState, FindMarker;
    var f := FindMarker(src, at);
    forall d: seq<byte> | src <= d
      ensures Future(os, d, 0, at, st) == Future(os, d, f.code, f.next, st)
    {
      FoundSettles(src, d, at);
    }
  }

  lemma FutureNotFound(os: Orders, src: seq<byte>, at: nat, to: nat, st: State)
    requires AreOrders(os) && IsState(st) && at <= |src| && st.sawSoi
    requires FindMarker(src, at) == NotYet && PassedOver(src, at, to)
    ensures SameFuture(os, src, 0, at, st, 0, to, st) && Future(os, src, 0, to, st) == Short
  {
    hide AreOrders, RunCode, IsState, FindMarker;
  }

  // ----- looking for markers while bytes still arrive

  /** Whatever else arrives, the marker found from here is the one found from there. */
  ghost predicate PassedOver(src: seq<byte>, from: nat, to: nat) {
    from <= to <= |src| && forall d: seq<byte> :: src <= d ==> FindMarker(d, from) == FindMarker(d, to)
  }

  lemma Here(src: seq<byte>, at: nat)
    requires at <= |src|
    ensures PassedOver(src, at, at)
  {
  }

  lemma FoundSame(src: seq<byte>, from: nat, to: nat)
    requires PassedOver(src, from, to)
    ensures FindMarker(src, from) == FindMarker(src, to)
  {
  }

  lemma Further(src: seq<byte>, from: nat, mid: nat, to: nat)
    requires PassedOver(src, from, mid) && PassedOver(src, mid, to)
    ensures PassedOver(src, from, to)
  {
  }

  lemma Ending(src: seq<byte>, at: nat)
    ensures at >= |src| ==> FindMarker(src, at) == NotYet
  {
  }

  lemma PassByte(src: seq<byte>, at: nat)
    requires at < |src| && src[at] != 0xFF
    ensures PassedOver(src, at, at + 1)
  {
  }

  lemma SkipFillIs(src: seq<byte>, at: nat)
    requires at <= |src|
    ensures SkipFill(src, at) == if at < |src| && src[at] == 0xFF then SkipFill(src, at + 1) else at
  {
  }

  lemma AtFill(src: seq<byte>, at: nat)
    requires at < |src| && src[at] == 0xFF
    ensures var k := SkipFill(src, at + 1);
            FindMarker(src, at)
            == if k >= |src| then NotYet else if src[k] == 0 then FindMarker(src, k + 1) else Found(src[k], k + 1)
  {
  }

  lemma {:induction false} SkipFillStable(src: seq<byte>, d: seq<byte>, at: nat)
    requires src <= d && SkipFill(src, at) < |src|
    ensures SkipFill(d, at) == SkipFill(src, at)
    decreases |src| - at
  {
    if at < |src| && src[at] == 0xFF {
      SkipFillStable(src, d, at + 1);
    }
  }

  lemma PassZero(src: seq<byte>, at: nat)
    requires at < |src| && src[at] == 0xFF && SkipFill(src, at + 1) < |src| && src[SkipFill(src, at + 1)] == 0
    ensures PassedOver(src, at, SkipFill(src, at + 1) + 1)
  {
    forall d: seq<byte> | src <= d
      ensures FindMarker(d, at) == FindMarker(d, SkipFill(src, at + 1) + 1)
    {
      SkipFillStable(src, d, at + 1);
      AtFill(d, at);
    }
  }

  lemma {:induction false} FoundSettles(src: seq<byte>, d: seq<byte>, at: nat)
    requires src <= d && FindMarker(src, at).Found?
    ensures FindMarker(d, at) == FindMarker(src, at)
    decreases |src| - at
  {
    if src[at] != 0xFF {
      FoundSettles(src, d, at + 1);
    } else {
      SkipFillStable(src, d, at + 1);
      var k := SkipFill(src, at + 1);
      if src[k] == 0 {
        FoundSettles(src, d, k + 1);
      }
    }
  }
}
