// The arithmetic encoder's registers: a 28-bit window on the interval base, one buffered byte that
// may still receive a carry, a count of stacked FF bytes behind it and a count of zero bytes that
// are written only when a nonzero byte follows.
module ArithEncoder {
  import opened Powers
  import opened Digits
  import opened ArithTable
  import opened ArithInterval

  /** The data bytes the registers stand for: written, withheld zeros, buffered, stacked. */
  ghost function Pending(emitted: seq<byte>, zc: nat, buffer: int, sc: nat): seq<byte>
    requires -1 <= buffer < 255
  {
    var head := AppendN(emitted, 0, zc);
    AppendN(if buffer >= 0 then head + [buffer] else head, 255, sc)
  }

  ghost predicate NoTrailingZero(d: seq<byte>) {
    d == [] || d[|d| - 1] != 0
  }

  /** The coding registers: base window, interval size, shifts until the next byte. */
  datatype Registers = Registers(c: int, a: int, ct: int)

  /** The C register holds the part of the interval base below the n bytes already split off, with
      room for a carry in the three spacer bits above it. */
  ghost predicate Window(iv: Interval, d: seq<byte>, r: Registers) {
    && r.a == iv.size && 0 <= r.c
    && 0 <= r.ct <= (if d == [] then 11 else 8)
    && iv.shifts == 11 + 8 * |d| - r.ct
    && iv.low == Shift(Value(d), 27 - r.ct) + r.c
    && (d == [] || r.c + r.a <= 9 * Pow2(24 - r.ct))
    && iv.low + iv.size <= Pow2(16 + iv.shifts)
  }

  /** The output is what was there before followed by the stuffed data bytes d. */
  ghost predicate Extends(out: seq<byte>, before: seq<byte>, d: seq<byte>) {
    |before| <= |out| && out[..|before|] == before && out[|before|..] == Stuff(d)
  }

  lemma ExtendsAppend(out: seq<byte>, before: seq<byte>, d: seq<byte>, x: byte)
    requires Extends(out, before, d)
    ensures Extends(out + Stuff1(x), before, d + [x])
  {
    StuffAppend(d, x);
    assert (out + Stuff1(x))[|before|..] == out[|before|..] + Stuff1(x);
  }

  lemma UnitWindow(iv: Interval, d: seq<byte>, c: int, a: int, ct: int)
    requires iv == UNIT && d == [] && c == 0 && a == 0x1_0000 && ct == 11
    ensures Window(iv, d, Registers(c, a, ct))
  {
    assert Value(d) == 0;
    ShiftIsProduct(0, 27 - ct);
    Pow2Values();
    assert Pow2(16 + iv.shifts) == 0x1_0000;
  }

  lemma WindowBound(iv: Interval, d: seq<byte>, c: int, a: int, ct: int)
    requires Window(iv, d, Registers(c, a, ct))
    ensures c + a <= 0x900_0000
    ensures d == [] ==> c + a <= Pow2(27 - ct) <= 0x800_0000
  {
    Pow2Values();
    if d == [] {
      assert Value(d) == 0;
      ShiftIsProduct(0, 27 - ct);
      Pow2Monotone(27 - ct, 27);
    } else {
      Pow2Monotone(24 - ct, 24);
    }
  }

  lemma WindowShift(iv: Interval, d: seq<byte>, c: int, a: int, ct: int)
    requires Window(iv, d, Registers(c, a, ct)) && ct > 0
    ensures Window(Double(iv), d, Registers(2 * c, 2 * a, ct - 1))
  {
    assert Shift(Value(d), 27 - (ct - 1)) == 2 * Shift(Value(d), 27 - ct);
    if d != [] {
      assert Pow2(24 - (ct - 1)) == 2 * Pow2(24 - ct);
    }
  }

  lemma WindowNarrow(iv: Interval, iv': Interval, d: seq<byte>, c: int, c': int, a: int, a': int, ct: int)
    requires Window(iv, d, Registers(c, a, ct)) && iv'.shifts == iv.shifts
    requires iv'.low - iv.low == c' - c >= 0 && iv'.size == a' && c' + a' <= c + a
    ensures Window(iv', d, Registers(c', a', ct))
  {
  }

  /** Stacked FF bytes with no buffered byte before them cannot overflow. */
  lemma CarryHasRoom(iv: Interval, sc: nat, c: int, a: int, ct: int)
    requires Window(iv, AppendN([], 255, sc), Registers(c, a, ct))
    ensures c + a <= Pow2(27 - ct)
  {
    ValueAllOnes(sc);
    AppendNLength([], 255, sc);
    assert 16 + iv.shifts == 8 * sc + (27 - ct);
    Pow2Add(8 * sc, 27 - ct);
    ShiftIsProduct(Value(AppendN([], 255, sc)), 27 - ct);
    MulAdd(Pow2(8 * sc), 1, Pow2(27 - ct));
  }

  /** Splitting the top byte (with a possible carry bit) off a full window. */
  lemma WindowByteOut(iv: Interval, d: seq<byte>, d': seq<byte>, c: int, a: int)
    requires Window(iv, d, Registers(c, a, 0)) && a <= 0x1_0000
    requires |d'| == |d| + 1 && Value(d') == 256 * Value(d) + c / 0x8_0000
    ensures Window(iv, d', Registers(c % 0x8_0000, a, 8))
  {
    Pow2Values();
    ShiftIsProduct(Value(d), 27);
    ShiftIsProduct(Value(d'), 19);
  }

  // ----- termination (section D.1.8 of T.81)

  /** The value with the most trailing zero bits in [c, c + a). */
  function FinalCode(c: nat, a: nat): (r: nat)
    requires 0x8000 <= a <= 0x1_0000
    ensures c <= r < c + a && r % 0x8000 == 0
  {
    var q := (a - 1 + c) / 0x1_0000;
    HalfMultiples(q);
    var temp := q * 0x1_0000;
    if temp < c then temp + 0x8000 else temp
  }

  lemma IsFinalCode(c: nat, a: nat, temp: int)
    requires 0x8000 <= a <= 0x1_0000
    requires var t := (a - 1 + c) / 0x1_0000 * 0x1_0000; temp == if t < c then t + 0x8000 else t
    ensures c <= temp < c + a && temp % 0x8000 == 0
  {
    assert temp == FinalCode(c, a);
  }

  lemma HalfMultiples(q: nat)
    ensures q * 0x1_0000 % 0x8000 == 0 && (q * 0x1_0000 + 0x8000) % 0x8000 == 0
  {
    DivModUnique(q * 0x1_0000, 0x8000, 2 * q, 0);
    DivModUnique(q * 0x1_0000 + 0x8000, 0x8000, 2 * q + 1, 0);
  }

  /** A multiple of 2^16 in the interval is the one chosen: no value there has more trailing zeros. */
  lemma FinalCodeIsRoundest(c: nat, a: nat, k: nat)
    requires 0x8000 <= a <= 0x1_0000 && c <= k * 0x1_0000 < c + a
    ensures FinalCode(c, a) == k * 0x1_0000
  {
    DivModUnique(a - 1 + c, 0x1_0000, k, a - 1 + c - k * 0x1_0000);
  }

  /** Shifted into byte position, the final code is a carry and two bytes. */
  lemma FinalBytes(iv: Interval, d: seq<byte>, c: int, a: int, ct: int, cf: nat)
    requires Window(iv, d, Registers(c, a, ct)) && ct > 0
    requires c <= cf < c + a && cf % 0x8000 == 0
    ensures var cs := cf * Pow2(ct);
            0 <= cs < 0x900_0000 && cs % 0x800 == 0 && (cs >= 0x800_0000 ==> cf >= Pow2(27 - ct))
  {
    ShiftedMultiple(cf, Pow2(ct - 1));
    WindowBound(iv, d, c, a, ct);
    var q := Pow2(ct);
    assert q == 2 * Pow2(ct - 1);
    hide Pow2, Shift, Value;
    Pow2Add(27 - ct, ct);
    Pow2Values();
    MulMonotone(cf + 1, c + a, q);
    MulAdd(cf, 1, q);
    if d == [] {
      MulMonotone(c + a, Pow2(27 - ct), q);
    } else {
      Pow2Add(24 - ct, ct);
      MulMonotone(c + a, 9 * Pow2(24 - ct), q);
      MulAssociateLeft(9, Pow2(24 - ct), q);
    }
    if cf < Pow2(27 - ct) {
      MulMonotone(cf + 1, Pow2(27 - ct), q);
    }
  }

  lemma ShiftedMultiple(cf: nat, p: nat)
    requires cf % 0x8000 == 0
    ensures cf * (2 * p) % 0x800 == 0
  {
    var k := cf / 0x8000 * p;
    MulAssociateLeft(cf / 0x8000, 0x8000, 2 * p);
    MulAssociate(cf / 0x8000, 0x1_0000, p);
    assert cf * (2 * p) == 0x1_0000 * k;
    assert 0x1_0000 * k == 0x800 * (32 * k);
  }

  /** The digits of the final code name a value inside the final interval. */
  lemma FinalInside(iv: Interval, d: seq<byte>, c: int, a: int, ct: int, cf: nat, f: seq<byte>)
    requires Window(iv, d, Registers(c, a, ct)) && c <= cf < c + a
    requires |f| == |d| + 2 && Value(f) * 0x800 == Value(d) * 0x800_0000 + cf * Pow2(ct)
    ensures Inside(iv, f)
  {
    hide Pow2, Shift, Prefix, Value, Inside;
    var n := |d|;
    var p, w, v, q := Pow2(5 + ct), Pow2(27 - ct), Value(d), Pow2(ct);
    InsideAtAny(iv, f, n + 4);
    assert 8 * (n + 4) - 16 - iv.shifts == 5 + ct;
    PrefixPastEnd(f, 2);
    Pow2Values();
    Pow2Add(5, ct);
    Pow2Add(27 - ct, 5 + ct);
    Pow2Add(16, 16);
    ShiftIsProduct(v, 27 - ct);
    FinalScale(v, w, p, q, iv.low, iv.low + iv.size, c, c + a, cf, Value(f));
  }

  /** What FinishPass writes: the pending digits with the carry added, and two bytes of the code. */
  lemma FinalDigitsInside(iv: Interval, d: seq<byte>, c: int, a: int, ct: int, cf: nat, cs: nat, e: seq<byte>)
    requires Window(iv, d, Registers(c, a, ct)) && c <= cf < c + a
    requires cs == cf * Pow2(ct) && cs < 0x900_0000 && cs % 0x800 == 0
    requires |e| == |d| && Value(e) == Value(d) + (if cs / 0x800_0000 != 0 then 1 else 0)
    ensures Inside(iv, e + [cs / 0x8_0000 % 256] + [cs / 0x800 % 256])
  {
    var b1, b2 := cs / 0x8_0000 % 256, cs / 0x800 % 256;
    ValueAppend(e, b1);
    ValueAppend(e + [b1], b2);
    CodeBytes(cs);
    FinalInside(iv, d, c, a, ct, cf, e + [b1] + [b2]);
  }

  lemma FinalScale(v: nat, w: nat, p: nat, q: nat, low: int, high: int, c: int, e: int, cf: int, f: nat)
    requires w * p == 0x1_0000_0000 && p == 32 * q
    requires low == v * w + c && high == v * w + e && c <= cf < e
    requires f * 0x800 == v * 0x800_0000 + cf * q
    ensures low * p <= f * 0x1_0000 < high * p
  {
    MulAdd(v * w, c, p);
    MulAdd(v * w, e, p);
    MulAssociateLeft(v, w, p);
    MulAssociate(cf, 32, q);
    MulMonotone(c, cf, p);
    MulMonotone(cf + 1, e, p);
    MulAdd(cf, 1, p);
  }

  lemma LowBytes(c: nat)
    ensures c % 0x800_0000 / 0x800 == c / 0x8_0000 % 256 * 256 + c / 0x800 % 256
    ensures c % 0x8_0000 / 0x800 == c / 0x800 % 256
  {
    var x, r := c / 0x800, c % 0x800;
    var y, b2 := x / 256, x % 256;
    var h, b1 := y / 256, y % 256;
    DivModUnique(c, 0x8_0000, y, b2 * 0x800 + r);
    DivModUnique(c, 0x800_0000, h, (b1 * 256 + b2) * 0x800 + r);
    DivModUnique(b2 * 0x800 + r, 0x800, b2, r);
    DivModUnique((b1 * 256 + b2) * 0x800 + r, 0x800, b1 * 256 + b2, r);
  }

  /** A shifted final code is its carry bit and two bytes, with nothing below them. */
  lemma CodeBytes(c: nat)
    requires c < 0x900_0000 && c % 0x800 == 0
    ensures c == (c / 0x800_0000 * 0x1_0000 + c / 0x8_0000 % 256 * 256 + c / 0x800 % 256) * 0x800
    ensures c / 0x800_0000 <= 1
  {
  }

  lemma SameDigitsInside(iv: Interval, d: seq<byte>, e: seq<byte>)
    requires SameDigits(d, e)
    ensures Inside(iv, d) <==> Inside(iv, e)
  {
    PrefixAgree(d, e, Bytes(iv.shifts));
  }

  class ArithEncoder {
    const table: Table
    const stats: array<state>

    var c: int
    var a: int
    var sc: int
    var zc: int
    var ct: int
    var buffer: int
    var out: seq<byte>

    // The segment so far: the statistics it started from, its decisions, the data bytes written
    // for it, and the output of earlier segments.
    ghost var start: seq<state>
    ghost var hist: seq<Decision>
    ghost var emitted: seq<byte>
    ghost var before: seq<byte>

    ghost predicate Counters()
      reads this`sc, this`zc, this`buffer, this`emitted, this`before, this`out
    {
      && 0 <= sc && 0 <= zc && -1 <= buffer < 255
      && (buffer == -1 ==> emitted == [] && zc == 0)
      && NoTrailingZero(emitted)
      && Extends(out, before, emitted)
    }

    ghost predicate Valid()
      reads this, stats
    {
      && Counters()
      && |start| == stats.Length && InRange(start, hist)
      && stats[..] == Run(table, start, hist).stats
      && Window(Run(table, start, hist).iv, Pending(emitted, zc, buffer, sc), Registers(c, a, ct))
      && ct > 0
    }

    constructor (init: seq<state>, t: Table)
      ensures Valid() && fresh(stats) && table == t
      ensures start == stats[..] == init && hist == [] && out == before == []
    {
      table := t;
      stats := new state[|init|](i requires 0 <= i < |init| => init[i]);
      c, a, sc, zc, ct, buffer, out := 0, 0x1_0000, 0, 0, 11, -1, [];
      start, hist, emitted, before := init, [], [], [];
      new;
      assert Counters();
      assert stats[..] == init;
      assert InRange(start, hist);
      assert stats[..] == Run(table, start, hist).stats;
      UnitWindow(Run(table, start, hist).iv, Pending(emitted, zc, buffer, sc), c, a, ct);
    }

    /** Reset the coding registers for a new segment. */
    method Restart()
      modifies this
      ensures stats[..] == old(stats[..]) && out == old(out)
      ensures Valid() && start == stats[..] && hist == [] && before == out
    {
      c, a, sc, zc, ct, buffer := 0, 0x1_0000, 0, 0, 11, -1;
      start, hist, emitted, before := stats[..], [], [], out;
      assert Counters();
      assert |start| == stats.Length && InRange(start, hist);
      assert stats[..] == Run(table, start, hist).stats;
      UnitWindow(Run(table, start, hist).iv, Pending(emitted, zc, buffer, sc), c, a, ct);
    }

    method EmitByte(val: byte)
      modifies this`out
      ensures out == old(out) + [val]
    {
      out := out + [val];
    }

    /** Write one data byte, with a stuffed zero after FF. */
    method EmitData(val: byte)
      requires Extends(out, before, emitted)
      modifies this`out, this`emitted
      ensures emitted == old(emitted) + [val] && Extends(out, before, emitted)
    {
      ExtendsAppend(out, before, emitted, val);
      EmitByte(val);
      if val == 0xFF {
        EmitByte(0);
      }
      assert out == old(out) + Stuff1(val);
      emitted := emitted + [val];
    }

    method EmitPendingZeros()
      requires zc >= 0 && Extends(out, before, emitted)
      modifies this`out, this`zc, this`emitted
      ensures zc == 0
      ensures emitted == AppendN(old(emitted), 0, old(zc)) && Extends(out, before, emitted)
    {
      while zc > 0
        invariant 0 <= zc <= old(zc)
        invariant emitted == AppendN(old(emitted), 0, old(zc) - zc) && Extends(out, before, emitted)
      {
        EmitData(0);
        zc := zc - 1;
      }
    }

    /** Overflow: the carry goes into the buffered byte and turns the stacked FF bytes into zeros. */
    method EmitCarry()
      requires Counters() && 0 <= buffer
      modifies this`out, this`zc, this`emitted, this`sc
      ensures Counters() && sc == 0 && zc == old(sc)
      ensures emitted == AppendN(old(emitted), 0, old(zc)) + [buffer + 1]
    {
      EmitPendingZeros();
      EmitData(buffer + 1);
      zc := zc + sc;
      sc := 0;
    }

    /** No overflow is possible any more: release the buffered byte and the stacked FF bytes. */
    method EmitSettled()
      requires Counters()
      modifies this`out, this`zc, this`emitted, this`sc
      ensures 0 <= zc && sc == 0 && NoTrailingZero(emitted) && Extends(out, before, emitted)
      ensures AppendN(emitted, 0, zc) == Pending(old(emitted), old(zc), buffer, old(sc))
    {
      if buffer == 0 {
        zc := zc + 1;
      } else if buffer >= 0 {
        EmitPendingZeros();
        EmitData(buffer);
      }
      if sc > 0 {
        EmitPendingZeros();
        ghost var settled := emitted;
        while sc > 0
          invariant 0 <= sc <= old(sc) && zc == 0
          invariant emitted == AppendN(settled, 255, old(sc) - sc) && Extends(out, before, emitted)
          invariant sc < old(sc) ==> NoTrailingZero(emitted)
        {
          EmitData(0xFF);
          sc := sc - 1;
        }
      }
    }

    /** The pending digits after one more digit t that may exceed a byte: t adds a carry to the rest. */
    twostate predicate DigitAppended(t: int)
      requires old(Counters()) && Counters()
      reads this`sc, this`zc, this`buffer, this`emitted, this`before, this`out
    {
      var d, d' := old(Pending(emitted, zc, buffer, sc)), Pending(emitted, zc, buffer, sc);
      |d'| == |d| + 1 && Value(d') == 256 * Value(d) + t
    }

    /** Overflow over all stacked FF bytes. */
    method AppendWithCarry(t: int)
      requires Counters() && 0 <= buffer && 256 <= t < 288
      modifies this`out, this`zc, this`emitted, this`sc, this`buffer
      ensures Counters() && DigitAppended(t)
    {
      CarryAndAppend(AppendN(emitted, 0, zc), buffer, sc, t - 256);
      EmitCarry();
      buffer := t % 256;
    }

    /** Stack an FF byte, which might overflow later. */
    method AppendOnes()
      requires Counters()
      modifies this`sc
      ensures Counters() && DigitAppended(255)
    {
      ValueAppend(Pending(emitted, zc, buffer, sc), 255);
      sc := sc + 1;
    }

    /** Buffer a byte that settles everything before it. */
    method AppendSettling(t: byte)
      requires Counters() && t < 255
      modifies this`out, this`zc, this`emitted, this`sc, this`buffer
      ensures Counters() && DigitAppended(t)
    {
      ValueAppend(Pending(emitted, zc, buffer, sc), t);
      EmitSettled();
      buffer := t;
    }

    /** Move the byte above the 19-bit fraction out of C. */
    method ByteOut(ghost iv: Interval)
      requires Counters() && ct == 0 && 0 < a <= 0x1_0000
      requires Window(iv, Pending(emitted, zc, buffer, sc), Registers(c, a, 0))
      modifies this`out, this`zc, this`emitted, this`sc, this`buffer, this`c, this`ct
      ensures Counters() && ct == 8
      ensures Window(iv, Pending(emitted, zc, buffer, sc), Registers(c, a, 8))
    {
      ghost var d := Pending(emitted, zc, buffer, sc);
      WindowBound(iv, d, c, a, 0);
      var temp := c / 0x8_0000;
      if temp > 0xFF {
        if buffer < 0 {
          CarryHasRoom(iv, sc, c, a, 0);
          Pow2Values();
          assert false;
        }
        AppendWithCarry(temp);
      } else if temp == 0xFF {
        AppendOnes();
      } else {
        AppendSettling(temp);
      }
      WindowByteOut(iv, d, Pending(emitted, zc, buffer, sc), c, a);
      c := c % 0x8_0000;
      ct := ct + 8;
    }

    /** Shift until the interval size is back in 0x8000..0x10000, writing bytes as they fill up. */
    method Renormalize(ghost iv: Interval)
      requires Counters() && ct > 0 && 0 < a < 0x8000 && 0 < iv.size < 0x8000
      requires Window(iv, Pending(emitted, zc, buffer, sc), Registers(c, a, ct))
      modifies this`out, this`zc, this`emitted, this`sc, this`buffer, this`c, this`ct, this`a
      ensures Counters() && ct > 0
      ensures Window(Renorm(iv), Pending(emitted, zc, buffer, sc), Registers(c, a, ct))
    {
      ghost var cur := iv;
      while a < 0x8000
        invariant 0 < a <= 0x1_0000
        invariant 0 < cur.size <= 0x1_0000 && Renorm(cur) == Renorm(iv)
        invariant Counters() && ct > 0
        invariant Window(cur, Pending(emitted, zc, buffer, sc), Registers(c, a, ct))
        decreases 0x1_0000 - a
      {
        WindowShift(cur, Pending(emitted, zc, buffer, sc), c, a, ct);
        cur := Double(cur);
        a := a * 2;
        c := c * 2;
        ct := ct - 1;
        if ct == 0 {
          ByteOut(cur);
        }
      }
    }

    /** Choose the subinterval and the next state for one decision (section D.1.4 and D.1.5);
        renormalization is due when the new size is below 0x8000. */
    method Choose(bin: nat, val: bool)
      requires bin < stats.Length && 0x8000 <= a <= 0x1_0000 && 0 <= c
      modifies this`a, this`c, stats
      ensures var iv := Narrow(table, Interval(old(c), old(a), 0), old(stats[bin]), val != old(stats[bin]).mps);
              a == iv.size && c == iv.low
      ensures var next := NextState(table, Interval(old(c), old(a), 0), old(stats[bin]), val != old(stats[bin]).mps);
              stats[..] == old(stats[..])[bin := next]
    {
      var sv := stats[bin];
      var entry := Lookup(table, sv);
      var qe := entry.qe;
      a := a - qe;
      if val != sv.mps {
        if a >= qe {
          c := c + a;
          a := qe;
        }
        stats[bin] := AfterLps(table, sv);
      } else {
        if a >= 0x8000 {
          return;
        }
        if a < qe {
          c := c + a;
          a := qe;
        }
        stats[bin] := AfterMps(table, sv);
      }
    }

    /** The registers between decisions. */
    lemma Registered()
      requires Valid()
      ensures ct > 0 && InRange(start, hist) && a == Run(table, start, hist).iv.size && 0x8000 <= a <= 0x1_0000 &&
              0 <= c
      ensures Counters() && Window(Run(table, start, hist).iv, Pending(emitted, zc, buffer, sc), Registers(c, a, ct))
    {
    }

    /** Without a buffered byte there is room for the carry. */
    lemma NothingBuffered()
      requires Valid() && buffer < 0
      ensures 0 <= ct <= 27 && c + a <= Pow2(27 - ct)
    {
      hide Run, InRange, Extends;
      assert AppendN(emitted, 0, zc) == [];
      hide AppendN;
      CarryHasRoom(Run(table, start, hist).iv, sc, c, a, ct);
    }

    /** Code one decision in one statistics bin. */
    method ArithEncode(bin: nat, val: bool)
      requires Valid() && bin < stats.Length
      modifies this, stats
      ensures Valid() && hist == old(hist) + [Decision(bin, val)]
      ensures before == old(before) && start == old(start)
    {
      hide Window, Pending, AppendN, Run, Extends, NoTrailingZero, AfterLps, AfterMps, Lookup;
      Registered();
      ghost var m, d := Run(table, start, hist), Decision(bin, val);
      RunAppend(table, start, hist, d);
      RunIsNormal(table, start, hist);
      ghost var lps := val != m.stats[bin].mps;
      ghost var iv := Narrow(table, m.iv, m.stats[bin], lps);
      Choose(bin, val);
      WindowNarrow(m.iv, iv, Pending(emitted, zc, buffer, sc), old(c), c, old(a), a, ct);
      if a < 0x8000 {
        Renormalize(iv);
      }
      hist := hist + [d];
      assert InRange(start, hist);
    }

    /** Write the two bytes left in C, dropping zero bytes at the end. */
    method EmitFinalBytes()
      requires Extends(out, before, emitted) && NoTrailingZero(emitted) && 0 <= zc && 0 <= c && c % 0x800 == 0
      modifies this`out, this`zc, this`emitted
      ensures Extends(out, before, emitted) && NoTrailingZero(emitted)
      ensures SameDigits(emitted, AppendN(old(emitted), 0, old(zc)) + [c / 0x8_0000 % 256] + [c / 0x800 % 256])
    {
      ghost var head := AppendN(emitted, 0, zc);
      LowBytes(c);
      if c % 0x800_0000 / 0x800 != 0 {
        EmitPendingZeros();
        EmitData(c / 0x8_0000 % 256);
        if c % 0x8_0000 / 0x800 != 0 {
          EmitData(c / 0x800 % 256);
        }
      } else {
        ZerosAtEnd(emitted, zc);
      }
    }

    /** Write everything pending, with a carry of one into it if overflow holds. */
    method EmitPending(overflow: bool)
      requires Counters() && (overflow ==> buffer >= 0)
      modifies this`out, this`zc, this`emitted, this`sc
      ensures Extends(out, before, emitted) && NoTrailingZero(emitted) && 0 <= zc
      ensures |AppendN(emitted, 0, zc)| == |old(Pending(emitted, zc, buffer, sc))|
      ensures Value(AppendN(emitted, 0, zc)) ==
              Value(old(Pending(emitted, zc, buffer, sc))) + if overflow then 1 else 0
    {
      if overflow {
        ghost var head := AppendN(emitted, 0, zc);
        CarryThroughStack(head, buffer, sc);
        AppendNLength(head + [buffer + 1], 0, sc);
        AppendNLength(head + [buffer], 255, sc);
        EmitCarry();
      } else {
        EmitSettled();
      }
    }

    /** Finish the segment: pick the code value with the most trailing zeros and write what remains
        of it, without the zero bytes at its end. */
    method FinishPass()
      requires Valid()
      modifies this`out, this`zc, this`emitted, this`sc, this`c
      ensures Extends(out, before, emitted) && NoTrailingZero(emitted)
      ensures Inside(Run(table, start, hist).iv, emitted)
    {
      hide ArithEncoder.Valid, Run, InRange, AppendN, Extends, NoTrailingZero, Inside, Value, Prefix, Window, Pow2,
           FinalCode;
      Registered();
      ghost var iv, d := Run(table, start, hist).iv, Pending(emitted, zc, buffer, sc);
      var temp := (a - 1 + c) / 0x1_0000 * 0x1_0000;
      if temp < c {
        temp := temp + 0x8000;
      }
      IsFinalCode(c, a, temp);
      FinalBytes(iv, d, c, a, ct, temp);
      if buffer < 0 {
        NothingBuffered();
      }
      c := temp * Pow2(ct);
      EmitPending(c / 0x800_0000 != 0);
      ghost var e := AppendN(emitted, 0, zc);
      EmitFinalBytes();
      FinalDigitsInside(iv, d, old(c), a, ct, temp, c, e);
      SameDigitsInside(iv, emitted, e + [c / 0x8_0000 % 256] + [c / 0x800 % 256]);
    }
  }
}
