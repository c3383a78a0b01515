// Writing ops: bits are left-justified in a 24-bit buffer and leave it a byte at a time, each FF byte
// with a stuffed 00; in a statistics pass symbols are counted instead.
module HuffWriter {
  import opened Powers
  import opened Digits
  import opened HuffCode
  import opened HuffTables
  import opened HuffBits

  // ----- bits and bytes

  ghost function BytesBits(d: seq<byte>): seq<bool> {
    if d == [] then [] else BytesBits(d[..|d| - 1]) + NumBits(d[|d| - 1], 8)
  }

  lemma BytesBitsAppend(d: seq<byte>, c: byte)
    ensures BytesBits(d + [c]) == BytesBits(d) + NumBits(c, 8)
  {
    assert (d + [c])[..|d|] == d;
  }

  /** The bits of a number may be written in two parts. */
  lemma {:induction false} NumBitsSplit(v: int, n: nat, m: nat)
    ensures NumBits(v, n + m) == NumBits(v / Pow2(m), n) + NumBits(v, m)
    decreases m
  {
    if m > 0 {
      NumBitsSplit(v / 2, n, m - 1);
      DivDivInt(v, 2, Pow2(m - 1));
    } else {
      assert NumBits(v, 0) == [];
      DivModUnique(v, 1, v, 0);
      assert NumBits(v / Pow2(0), n) + [] == NumBits(v, n);
    }
  }

  lemma DivDivInt(v: int, a: nat, b: nat)
    requires a > 0 && b > 0
    ensures a * b > 0 && v / a / b == v / (a * b)
  {
    MulMonotone(1, a, b);
    var y, r := v / a, v % a;
    var z, s := y / b, y % b;
    assert v == y * a + r && y == z * b + s;
    MulAdd(z * b, s, a);
    MulAssociateLeft(z, b, a);
    MulMonotone(s + 1, b, a);
    MulAdd(s, 1, a);
    assert b * a == a * b;
    DivModUnique(v, a * b, z, s * a + r);
  }

  /** Only the low n bits of a number are written. */
  lemma {:induction false} NumBitsMod(v: int, n: nat)
    ensures NumBits(v % Pow2(n), n) == NumBits(v, n)
    decreases n
  {
    if n > 0 {
      var h := Pow2(n - 1);
      HalfMod(v, h);
      NumBitsMod(v / 2, n - 1);
      assert v % Pow2(n) / 2 == v / 2 % h && v % Pow2(n) % 2 == v % 2;
    }
  }

  // ----- the buffer

  const BUF_SIZE := 0x1_0000_0000

  /** The low 24 bits of buf hold the n bits of pend, left-justified. */
  ghost predicate Holds(buf: nat, pend: nat, n: nat) {
    n <= 24 && pend < Pow2(n) && buf % 0x100_0000 == pend * Pow2(24 - n)
  }

  /** New bits go below the ones held: the two do not overlap. */
  lemma Merge(buf: nat, pend: nat, n: nat, v: nat, size: nat)
    requires Holds(buf, pend, n) && buf < BUF_SIZE && v < Pow2(size) && n + size <= 24
    ensures buf + v * Pow2(24 - (n + size)) < BUF_SIZE
    ensures Holds(buf + v * Pow2(24 - (n + size)), pend * Pow2(size) + v, n + size)
  {
    hide Pow2;
    var d, m := Pow2(24 - (n + size)), Pow2(size);
    Pow2Add(24 - (n + size), size);
    Pow2Add(n, size);
    Pow2Add(n, 24 - n);
    Pow2Values();
    MergeArith(pend, Pow2(n), v, m, d);
    MergeParts(buf, pend * (d * m), v * d);
  }

  lemma MergeArith(pend: nat, top: nat, v: nat, m: nat, d: nat)
    requires pend < top && v < m
    ensures pend * m + v < top * m && (pend * m + v) * d == pend * (d * m) + v * d
    ensures pend * (d * m) + v * d + d <= top * (d * m)
  {
    MulMonotone(v + 1, m, d);
    MulAdd(v, 1, d);
    MulMonotone(pend + 1, top, m);
    MulAdd(pend, 1, m);
    MulMonotone(pend + 1, top, d * m);
    MulAdd(pend, 1, d * m);
    MulAdd(pend * m, v, d);
    MulAssociateLeft(pend, m, d);
  }

  lemma MergeParts(buf: nat, low: nat, more: nat)
    requires buf < BUF_SIZE && buf % 0x100_0000 == low && low + more < 0x100_0000
    ensures buf + more < BUF_SIZE && (buf + more) % 0x100_0000 == low + more
  {
    DivModUnique(buf + more, 0x100_0000, buf / 0x100_0000, low + more);
  }

  /** The top byte of the 24 bits is the first eight bits held. */
  lemma TopByte(buf: nat, pend: nat, n: nat)
    requires Holds(buf, pend, n) && 8 <= n
    ensures buf / 0x1_0000 % 256 == pend / Pow2(n - 8)
    ensures Holds(buf * 256 % BUF_SIZE, pend % Pow2(n - 8), n - 8)
  {
    hide Pow2;
    var d, e := Pow2(n - 8), Pow2(24 - n);
    var q, r := pend / d, pend % d;
    assert pend == q * d + r;
    Pow2Add(8, n - 8);
    Pow2Add(n - 8, 24 - n);
    Pow2Add(8, 24 - n);
    Pow2Values();
    CompareQuotient(q, r, d, 256);
    MulAdd(q * d, r, e);
    MulAssociateLeft(q, d, e);
    MulMonotone(r + 1, d, e);
    MulAdd(r, 1, e);
    TopByteParts(buf, q, r * e);
    MulAssociate(r, 256, e);
  }

  lemma TopByteParts(buf: nat, q: nat, low: nat)
    requires q < 256 && low < 0x1_0000 && buf % 0x100_0000 == q * 0x1_0000 + low
    ensures buf / 0x1_0000 % 256 == q && buf * 256 % BUF_SIZE % 0x100_0000 == 256 * low
  {
    var k := buf / 0x100_0000;
    assert buf == k * 0x100_0000 + q * 0x1_0000 + low;
    DivModUnique(buf, 0x1_0000, k * 256 + q, low);
    DivModUnique(k * 256 + q, 256, k, q);
    DivModUnique(buf * 256, BUF_SIZE, k, q * 0x100_0000 + 256 * low);
    DivModUnique(q * 0x100_0000 + 256 * low, 0x100_0000, q, 256 * low);
  }

  // ----- padding

  function Ones(n: nat): (r: seq<bool>)
    ensures |r| == n
  {
    seq(n, _ => true)
  }

  lemma {:induction false} NumBitsOnes(n: nat)
    ensures NumBits(Pow2(n) - 1, n) == Ones(n)
  {
    if n > 0 {
      NumBitsOnes(n - 1);
      assert (Pow2(n) - 1) / 2 == Pow2(n - 1) - 1;
      assert Ones(n) == Ones(n - 1) + [true];
    }
  }

  /** Whole bytes that hold the bits of a segment, the last one filled up with ones. */
  ghost predicate Padded(data: seq<byte>, bits: seq<bool>) {
    exists k: nat :: k < 8 && BytesBits(data) == bits + Ones(k)
  }

  /** The derived tables of the eight slots; an unused slot is an empty table. */
  ghost predicate Derived(ts: Tables, ds: seq<CDerived>) {
    && |ds| == 8
    && (forall t :: 0 <= t < 8 ==> IsTable(ts[t]) && IsCDerived(ts[t], ds[t], NumSymbols(ts[t])))
  }

  class HuffWriter {
    const tables: Tables
    const derived: seq<CDerived>
    const gather: bool

    var out: seq<byte>
    var putBuffer: nat
    var putBits: nat
    var counts: seq<seq<nat>>

    // The ops of finished segments and of the current one, the data bytes of the current segment
    // before stuffing, the bits that wait in the buffer, and the output before the segment.
    ghost var past: seq<Op>
    ghost var hist: seq<Op>
    ghost var data: seq<byte>
    ghost var pend: nat
    ghost var before: seq<byte>

    ghost predicate Buffered(bits: seq<bool>)
      reads this`putBuffer, this`putBits, this`pend, this`out, this`data, this`before
    {
      && Holds(putBuffer, pend, putBits) && putBuffer < BUF_SIZE
      && out == before + Stuff(data)
      && BytesBits(data) + NumBits(pend, putBits) == bits
    }

    ghost predicate Counting()
      reads this`counts, this`past, this`hist
    {
      && |counts| == 8
      && (forall t :: 0 <= t < 8 ==> |counts[t]| == 257)
      && (forall t, s :: 0 <= t < 8 && 0 <= s < 257 ==> counts[t][s] == multiset(past + hist)[Sym(t, s)])
    }

    ghost predicate AllCoded()
      reads this`hist
    {
      forall i :: 0 <= i < |hist| ==> OpHasCode(tables, hist[i])
    }

    ghost predicate Valid()
      reads this`out, this`putBuffer, this`putBits, this`counts, this`past, this`hist, this`data, this`pend, this`before
    {
      && (gather ==> Counting())
      && (!gather ==> Derived(tables, derived) && putBits < 8 && Buffered(BitsOf(tables, hist)) && AllCoded())
    }

    constructor (gather: bool, tables: Tables, derived: seq<CDerived>)
      requires gather || Derived(tables, derived)
      ensures Valid() && this.gather == gather && this.tables == tables && hist == past == [] && out == before == []
    {
      this.gather, this.tables, this.derived := gather, tables, derived;
      out, before, data, hist, past := [], [], [], [], [];
      putBuffer, putBits, pend := 0, 0, 0;
      counts := seq(8, _ => seq(257, _ => 0));
      new;
      assert past + hist == [];
      assert Pow2(0) == 1;
    }

    method EmitByte(c: byte)
      modifies this`out
      ensures out == old(out) + [c]
    {
      out := out + [c];
    }

    /** Append size bits of code to the buffer and send off whole bytes. */
    method EmitBits(code: int, size: nat, ghost bits: seq<bool>)
      requires 1 <= size <= 16 && putBits < 8 && Buffered(bits)
      modifies this`out, this`putBuffer, this`putBits, this`data, this`pend
      ensures putBits < 8 && Buffered(bits + NumBits(code, size))
    {
      hide BytesBits, NumBits, Pow2, Stuff, Holds;
      HoldsFacts(putBuffer, pend, putBits);
      ghost var goal := bits + NumBits(code, size);
      var buf := code % Pow2(size);
      Merge(putBuffer, pend, putBits, buf, size);
      JoinBits(pend, putBits, code, size);
      Concat3(BytesBits(data), NumBits(pend, putBits), NumBits(code, size));
      pend := pend * Pow2(size) + buf;
      putBits := putBits + size;
      putBuffer := putBuffer + buf * Pow2(24 - putBits);
      while putBits >= 8
        invariant Buffered(goal)
      {
        var c: byte := putBuffer / 0x1_0000 % 256;
        TopByte(putBuffer, pend, putBits);
        NumBitsSplit(pend, 8, putBits - 8);
        NumBitsMod(pend, putBits - 8);
        BytesBitsAppend(data, c);
        StuffAppend(data, c);
        Concat3(BytesBits(data), NumBits(c, 8), NumBits(pend, putBits - 8));
        EmitByte(c);
        if c == 0xFF {
          EmitByte(0);
        }
        data := data + [c];
        assert out == before + Stuff(data);
        pend := pend % Pow2(putBits - 8);
        putBuffer := putBuffer * 256 % BUF_SIZE;
        putBits := putBits - 8;
      }
    }

    /** Pad with ones to a whole byte, drop the rest and start an empty buffer. */
    method FlushBits(ghost bits: seq<bool>)
      requires putBits < 8 && Buffered(bits)
      modifies this`out, this`putBuffer, this`putBits, this`data, this`pend
      ensures putBits == 0 && putBuffer == 0 && pend == 0
      ensures out == before + Stuff(data) && Padded(data, bits)
    {
      hide BytesBits, NumBits, Stuff, Holds;
      Pow2Values();
      NumBitsOnes(7);
      EmitBits(0x7F, 7, bits);
      PadLength(data, bits, NumBits(pend, putBits));
      putBuffer, putBits, pend := 0, 0, 0;
    }

    /** Count a symbol. */
    method CountSymbol(tbl: nat, s: nat)
      requires Valid() && gather && tbl < 8 && s < 256
      modifies this`counts, this`hist
      ensures Valid() && hist == old(hist) + [Sym(tbl, s)]
    {
      CountOne(counts, past, hist, tbl, s);
      counts := counts[tbl := counts[tbl][s := counts[tbl][s] + 1]];
      hist := hist + [Sym(tbl, s)];
    }

    /** Numbers are not counted. */
    ghost method SkipNumber(v: int, n: nat)
      requires Valid() && gather
      modifies this`hist
      ensures Valid() && hist == old(hist) + [Raw(v, n)]
    {
      CountNone(past, hist, v, n);
      hist := hist + [Raw(v, n)];
    }

    /** Emit or count a symbol; a symbol without a code is an error. */
    method EmitSymbol(tbl: nat, s: nat) returns (ok: bool)
      requires Valid() && tbl < 8 && s < 256
      modifies this`out, this`putBuffer, this`putBits, this`data, this`pend, this`counts, this`hist
      ensures ok <==> gather || HasCode(tables[tbl], s)
      ensures ok ==> Valid() && hist == old(hist) + [Sym(tbl, s)]
    {
      hide BitsOf, BytesBits, NumBits, Stuff, Holds, IsTable, IsCDerived;
      ok := true;
      if gather {
        CountSymbol(tbl, s);
        return;
      }
      var d := derived[tbl];
      CodeFromDerived(tables[tbl], d, s);
      if d.ehufsi[s] == 0 {
        return false;
      }
      EmitBits(d.ehufco[s], d.ehufsi[s], BitsOf(tables, hist));
      BitsOfAppend(tables, hist, Sym(tbl, s));
      hist := hist + [Sym(tbl, s)];
    }

    /** Emit the low n bits of v, unless statistics are gathered. */
    method EmitNumber(v: int, n: nat)
      requires Valid() && 1 <= n <= 16
      modifies this`out, this`putBuffer, this`putBits, this`data, this`pend, this`hist
      ensures Valid() && hist == old(hist) + [Raw(v, n)]
    {
      hide BitsOf, BytesBits, NumBits, Stuff, Holds, IsTable, IsCDerived;
      if gather {
        SkipNumber(v, n);
        return;
      }
      EmitBits(v, n, BitsOf(tables, hist));
      BitsOfAppend(tables, hist, Raw(v, n));
      assert OpBits(tables, Raw(v, n)) == NumBits(v, n);
      hist := hist + [Raw(v, n)];
    }

    /** The bits of the segment have left the buffer, padded with ones. */
    ghost predicate Flushed()
      reads this`out, this`putBuffer, this`putBits, this`hist, this`data, this`before
    {
      && Derived(tables, derived) && putBits == 0 && putBuffer == 0 && AllCoded()
      && out == before + Stuff(data) && Padded(data, BitsOf(tables, hist))
    }

    /** flush_bits at the end of a segment. */
    method FlushSegment()
      requires Valid() && !gather
      modifies this`out, this`putBuffer, this`putBits, this`data, this`pend
      ensures Flushed()
    {
      hide Stuff, BitsOf, Derived, Padded, OpHasCode;
      FlushBits(BitsOf(tables, hist));
    }

    /** A marker after a flushed segment. */
    method EmitMarker(code: byte)
      requires Flushed()
      modifies this`out
      ensures out == old(out) + [0xFF] + [code] && Ready()
    {
      hide Derived;
      EmitByte(0xFF);
      EmitByte(code);
    }

    /** Nothing waits in the buffer. */
    ghost predicate Ready()
      reads this`putBuffer, this`putBits
    {
      Derived(tables, derived) && putBits == 0 && putBuffer == 0
    }

    /** The segment is finished; the next one starts here. */
    ghost method StartSegment()
      requires if gather then Valid() else Ready()
      modifies this`past, this`hist, this`data, this`pend, this`before
      ensures Valid() && hist == [] && past == old(past + hist) && before == out
    {
      hide Derived, Stuff, OpHasCode, BytesBits, NumBits, Holds;
      past, hist, data, pend, before := past + hist, [], [], 0, out;
      assert past + hist == old(past + hist);
      NothingPending();
    }
  }

  lemma NothingPending()
    ensures Holds(0, 0, 0) && BytesBits([]) + NumBits(0, 0) == [] && Stuff([]) == []
  {
    assert Pow2(0) == 1;
  }

  lemma HoldsFacts(buf: nat, pend: nat, n: nat)
    requires Holds(buf, pend, n)
    ensures n <= 24 && pend < Pow2(n)
  {
  }

  lemma JoinBits(pend: nat, n: nat, code: int, size: nat)
    ensures NumBits(pend * Pow2(size) + code % Pow2(size), n + size) == NumBits(pend, n) + NumBits(code, size)
  {
    var x := pend * Pow2(size) + code % Pow2(size);
    DivModUnique(x, Pow2(size), pend, code % Pow2(size));
    NumBitsSplit(x, n, size);
    NumBitsMod(x, size);
    NumBitsMod(code, size);
  }

  lemma {:induction false} BytesBitsLength(d: seq<byte>)
    ensures |BytesBits(d)| == 8 * |d|
  {
    if d != [] {
      BytesBitsLength(d[..|d| - 1]);
    }
  }

  lemma PadLength(data: seq<byte>, bits: seq<bool>, left: seq<bool>)
    requires BytesBits(data) + left == bits + Ones(7) && |left| < 8
    ensures Padded(data, bits)
  {
    BytesBitsLength(data);
    assert |bits| + 7 == 8 * |data| + |left|;
    var k := 7 - |left|;
    assert BytesBits(data) == (BytesBits(data) + left)[..8 * |data|];
    assert bits + Ones(k) == (bits + Ones(7))[..8 * |data|];
  }

  /** What the derived table says about symbol s. */
  lemma CodeFromDerived(t: HuffTbl, d: CDerived, s: nat)
    requires IsTable(t) && IsCDerived(t, d, NumSymbols(t)) && s < 256
    ensures |d.ehufco| == |d.ehufsi| == 256
    ensures d.ehufsi[s] != 0 <==> HasCode(t, s)
    ensures HasCode(t, s) ==> 1 <= d.ehufsi[s] <= 16 && CodeBits(t, s) == NumBits(d.ehufco[s], d.ehufsi[s])
  {
    hide CodeBits;
    if HasCode(t, s) {
      var p := IndexOf(t, s);
      assert t.vals[p] == s;
      assert d.ehufsi[t.vals[p]] == Length(t.bits, p);
      CodeBitsAre(t, s);
    }
  }

  lemma CodeBitsAre(t: HuffTbl, s: nat)
    requires HasCode(t, s)
    ensures var p := IndexOf(t, s);
            var l := Length(t.bits, p);
            1 <= l <= 16 && CodeBits(t, s) == NumBits(Code(t.bits, p, l), l)
  {
  }

  lemma CountOne(counts: seq<seq<nat>>, past: seq<Op>, hist: seq<Op>, tbl: nat, s: nat)
    requires |counts| == 8 && (forall t :: 0 <= t < 8 ==> |counts[t]| == 257) && tbl < 8 && s < 257
    requires forall t, u :: 0 <= t < 8 && 0 <= u < 257 ==> counts[t][u] == multiset(past + hist)[Sym(t, u)]
    ensures var c := counts[tbl := counts[tbl][s := counts[tbl][s] + 1]];
            forall t, u :: 0 <= t < 8 && 0 <= u < 257 ==> c[t][u] == multiset(past + (hist + [Sym(tbl, s)]))[Sym(t, u)]
  {
    assert past + (hist + [Sym(tbl, s)]) == past + hist + [Sym(tbl, s)];
  }

  lemma CountNone(past: seq<Op>, hist: seq<Op>, v: int, n: nat)
    ensures forall t, u :: multiset(past + (hist + [Raw(v, n)]))[Sym(t, u)] == multiset(past + hist)[Sym(t, u)]
  {
    assert past + (hist + [Raw(v, n)]) == past + hist + [Raw(v, n)];
  }
}
