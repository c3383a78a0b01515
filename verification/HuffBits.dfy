// What an entropy-coded segment says, as a list of Huffman symbols and plain numbers, and the bits that
// say it. Lists are consumed from the front: functions that produce them take what follows as an argument.
module HuffBits {
  import opened Powers
  import opened Coefs
  import opened HuffCode
  import opened HuffTables

  /** Symbol s of table slot tbl, or the low n bits of v. */
  datatype Op = Sym(tbl: nat, s: nat) | Raw(v: int, n: nat)

  datatype Ops = Done | Then(op: Op, rest: Ops)

  /** The ops of hist followed by those of ops. */
  ghost function Plan(hist: seq<Op>, ops: Ops): seq<Op>
    decreases ops
  {
    match ops
    case Done => hist
    case Then(op, rest) => Plan(hist + [op], rest)
  }

  // ----- numbers as bits, the leading bit first

  function NumBits(v: int, n: nat): (r: seq<bool>)
    ensures |r| == n
    decreases n
  {
    if n == 0 then [] else NumBits(v / 2, n - 1) + [v % 2 == 1]
  }

  /** What is left of s after n bits. */
  function Rest(s: seq<bool>, n: nat): seq<bool> {
    if n <= |s| then s[n..] else []
  }

  lemma HalfMod(v: int, m: nat)
    requires m > 0
    ensures 2 * (v / 2 % m) + v % 2 == v % (2 * m)
  {
    var q, r := v / 2 / m, v / 2 % m;
    assert v / 2 == q * m + r;
    MulAssociate(q, 2, m);
    DivModUnique(v, 2 * m, q, 2 * r + v % 2);
  }

  /** Reading n bits back gives the number they were written for. */
  lemma {:induction false} PeekNum(v: int, n: nat, more: seq<bool>)
    ensures Peek(NumBits(v, n) + more, n) == v % Pow2(n) && Rest(NumBits(v, n) + more, n) == more
    decreases n
  {
    if n > 0 {
      var bit := [v % 2 == 1];
      PeekNum(v / 2, n - 1, bit + more);
      assert NumBits(v, n) + more == NumBits(v / 2, n - 1) + (bit + more);
      HalfMod(v, Pow2(n - 1));
    }
  }

  lemma {:induction false} PeekSplit(s: seq<bool>, n: nat, m: nat)
    ensures Peek(s, n + m) == Peek(s, n) * Pow2(m) + Peek(Rest(s, n), m)
    ensures Rest(s, n + m) == Rest(Rest(s, n), m)
  {
    if m > 0 {
      PeekSplit(s, n, m - 1);
      MulAssociate(Peek(s, n), 2, Pow2(m - 1));
      assert Bit(s, n + m - 1) == Bit(Rest(s, n), m - 1);
    }
  }

  /** A number of n bits for a nonzero v: v itself, or for a negative v one less, as F.1.2.1 has it. */
  function Magnitude(v: int): int {
    if v < 0 then v - 1 else v
  }

  /** How many bits v needs. */
  function BitLength(v: nat): (r: nat)
    ensures r == 0 <==> v == 0
  {
    if v == 0 then 0 else 1 + BitLength(v / 2)
  }

  /** Figure F.12: extend the sign of a number of s bits. */
  function Extend(x: nat, s: nat): int {
    if s == 0 then 0 else if x < Pow2(s - 1) then x - (Pow2(s) - 1) else x
  }

  lemma {:induction false} BitLengthBounds(v: nat)
    ensures v < Pow2(BitLength(v)) && (v > 0 ==> Pow2(BitLength(v) - 1) <= v)
  {
    if v > 0 {
      BitLengthBounds(v / 2);
    }
  }

  lemma {:induction false} BitLengthIs(v: nat, n: nat)
    requires v < Pow2(n)
    ensures BitLength(v) <= n
  {
    if v > 0 {
      BitLengthIs(v / 2, n - 1);
    }
  }

  /** Extending the magnitude bits gives the value back. */
  lemma ExtendInverts(v: int)
    ensures Extend(Magnitude(v) % Pow2(BitLength(Abs(v))), BitLength(Abs(v))) == v
  {
    var n := BitLength(Abs(v));
    BitLengthBounds(Abs(v));
    if v < 0 {
      DivModUnique(v - 1, Pow2(n), -1, Pow2(n) + v - 1);
    } else if v > 0 {
      DivModUnique(v, Pow2(n), 0, v);
    }
  }

  // ----- symbols as bits

  type Tables = ts: seq<HuffTbl> | |ts| == 8 witness seq(8, _ => HuffTbl(seq(17, _ => 0), seq(256, _ => 0)))

  // The slots: four DC tables, four AC tables.
  const NUM_HUFF_TBLS := 4

  function DcSlot(tbl: nat): nat { tbl }
  function AcSlot(tbl: nat): nat { NUM_HUFF_TBLS + tbl }

  ghost predicate IsTable(t: HuffTbl) {
    Legal(t.bits) && NumSymbols(t) <= 256 && GoodSymbols(t, 255, NumSymbols(t))
  }

  /** Table t has a code for symbol s. */
  predicate HasCode(t: HuffTbl, s: nat) {
    NumSymbols(t) <= 256 && s in t.vals[..NumSymbols(t)]
  }

  function IndexOf(t: HuffTbl, s: nat): (p: nat)
    requires HasCode(t, s)
    ensures p < NumSymbols(t) <= 256 && t.vals[p] == s
  {
    FindIndex(t.vals[..NumSymbols(t)], s)
  }

  function FindIndex(vals: seq<nat>, s: nat): (p: nat)
    requires s in vals
    ensures p < |vals| && vals[p] == s
  {
    if vals[0] == s then 0 else 1 + FindIndex(vals[1..], s)
  }

  /** The code of symbol s. */
  function CodeBits(t: HuffTbl, s: nat): seq<bool>
    requires HasCode(t, s)
  {
    var p := IndexOf(t, s);
    var l := Length(t.bits, p);
    NumBits(Code(t.bits, p, l), l)
  }

  /** The symbol at the head of s: what the bit-by-bit search of Figure F.16 finds, or 0. */
  function SymAt(t: HuffTbl, s: seq<bool>): nat
    requires Legal(t.bits)
  {
    var l := Search(t.bits, s, 1);
    if l > 16 then 0
    else
      SearchIndex(t.bits, s);
      IndexInTable(t.bits, Peek(s, l) + ValOffset(t.bits, l), l);
      t.vals[Peek(s, l) + ValOffset(t.bits, l)]
  }

  function AfterSym(t: HuffTbl, s: seq<bool>): seq<bool> {
    Rest(s, Search(t.bits, s, 1))
  }

  lemma IndexInTable(bits: seq<nat>, p: nat, l: nat)
    requires |bits| == 17 && Legal(bits) && HasLength(bits, p, l)
    ensures p < Start(bits, 17) <= 256
  {
    StartMonotone(bits, l + 1, 17);
  }

  /** A symbol is read back from its code, whatever follows. */
  lemma SymDecodes(t: HuffTbl, s: nat, more: seq<bool>)
    requires Legal(t.bits) && HasCode(t, s)
    ensures SymAt(t, CodeBits(t, s) + more) == s && AfterSym(t, CodeBits(t, s) + more) == more
  {
    var p := IndexOf(t, s);
    var l := Length(t.bits, p);
    var c := Code(t.bits, p, l);
    PeekNum(c, l, more);
    assert First(t.bits, l) + t.bits[l] < Pow2(l);
    DivModUnique(c, Pow2(l), 0, c);
    SearchFindsCode(t.bits, NumBits(c, l) + more, p, l);
  }

  // ----- ops as bits

  predicate OpHasCode(ts: Tables, op: Op) {
    op.Sym? ==> op.tbl < 8 && HasCode(ts[op.tbl], op.s)
  }

  function OpBits(ts: Tables, op: Op): seq<bool> {
    match op
    case Sym(tbl, s) => if OpHasCode(ts, op) then CodeBits(ts[tbl], s) else []
    case Raw(v, n) => NumBits(v, n)
  }

  /** Every symbol of ops has a code. */
  predicate Covered(ts: Tables, ops: Ops)
  {
    match ops
    case Done => true
    case Then(op, rest) => OpHasCode(ts, op) && Covered(ts, rest)
  }

  /** The bits of ops, then tail. */
  ghost function BitsFrom(ts: Tables, ops: Ops, tail: seq<bool>): seq<bool>
    decreases ops
  {
    match ops
    case Done => tail
    case Then(op, rest) => OpBits(ts, op) + BitsFrom(ts, rest, tail)
  }

  /** The bits of hist. */
  ghost function BitsOf(ts: Tables, hist: seq<Op>): seq<bool> {
    if hist == [] then [] else BitsOf(ts, hist[..|hist| - 1]) + OpBits(ts, hist[|hist| - 1])
  }

  lemma {:induction false} PlanBits(ts: Tables, hist: seq<Op>, ops: Ops, tail: seq<bool>)
    ensures BitsOf(ts, Plan(hist, ops)) + tail == BitsOf(ts, hist) + BitsFrom(ts, ops, tail)
    decreases ops
  {
    hide OpBits;
    match ops
    case Done =>
    case Then(op, rest) =>
      PlanBits(ts, hist + [op], rest, tail);
      BitsOfAppend(ts, hist, op);
      Concat3(BitsOf(ts, hist), OpBits(ts, op), BitsFrom(ts, rest, tail));
  }

  lemma BitsOfAppend(ts: Tables, hist: seq<Op>, op: Op)
    ensures BitsOf(ts, hist + [op]) == BitsOf(ts, hist) + OpBits(ts, op)
  {
    assert (hist + [op])[..|hist|] == hist;
  }

  lemma Concat3(a: seq<bool>, b: seq<bool>, c: seq<bool>)
    ensures a + b + c == a + (b + c)
  {
  }
}
