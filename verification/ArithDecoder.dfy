// The arithmetic decoder's registers: the cut between the interval base and the bit buffer in C
// floats with the shift count, and renormalization waits until the next decision.
module ArithDecoder {
  import opened Powers
  import opened Digits
  import opened Segments
  import opened ArithTable
  import opened ArithInterval

  /** C is the code value, read as far as the registers reach, minus the interval base. */
  ghost predicate Cut(iv: Interval, got: seq<byte>, r: Registers) {
    && r.a == iv.size > 0
    && r.ct == Slack(iv.shifts) && |got| == Bytes(iv.shifts)
    && r.c == Value(got) - Shift(iv.low, r.ct)
  }

  datatype Registers = Registers(c: int, a: int, ct: int)

  lemma SlackStep(shifts: nat)
    ensures Slack(shifts) > 0 ==> Bytes(shifts + 1) == Bytes(shifts) && Slack(shifts + 1) == Slack(shifts) - 1
    ensures Slack(shifts) == 0 ==> Bytes(shifts + 1) == Bytes(shifts) + 1 && Slack(shifts + 1) == 7
  {
  }

  lemma CutShift(iv: Interval, got: seq<byte>, r: Registers)
    requires Cut(iv, got, r) && r.ct > 0
    ensures Cut(Double(iv), got, Registers(r.c, 2 * r.a, r.ct - 1))
  {
    SlackStep(iv.shifts);
    ShiftIsProduct(iv.low, r.ct);
    ShiftIsProduct(2 * iv.low, r.ct - 1);
    MulAssociateLeft(2, iv.low, Pow2(r.ct - 1));
    MulAssociate(iv.low, 2, Pow2(r.ct - 1));
  }

  lemma CutFetch(iv: Interval, got: seq<byte>, r: Registers, data: byte)
    requires Cut(iv, got, r) && r.ct == 0
    ensures Cut(Double(iv), got + [data], Registers(r.c * 256 + data, 2 * r.a, 7))
  {
    SlackStep(iv.shifts);
    ValueAppend(got, data);
    ShiftIsProduct(2 * iv.low, 7);
    Pow2Values();
  }

  lemma UnitCut(got: seq<byte>)
    requires |got| == 2
    ensures Cut(UNIT, got, Registers(Value(got), 0x1_0000, 0)) && Inside(UNIT, got)
  {
    PrefixBound(got, 2);
    Pow2Values();
    assert Bytes(0) == 2 && Slack(0) == 0;
  }

  lemma UnitRenorm()
    ensures Renorm(UNIT) == UNIT
  {
  }

  lemma RenormStep(iv: Interval)
    requires 0 < iv.size < 0x8000
    ensures 0 < Double(iv).size <= 0x1_0000 && Renorm(Double(iv)) == Renorm(iv)
  {
  }

  lemma RenormDone(iv: Interval)
    requires 0x8000 <= iv.size <= 0x1_0000
    ensures Renorm(iv) == iv
  {
  }

  lemma CutIs(iv: Interval, got: seq<byte>, r: Registers)
    requires Cut(iv, got, r)
    ensures r.a == iv.size > 0 && 0 <= r.ct == Slack(iv.shifts) && |got| == Bytes(iv.shifts)
  {
  }

  lemma InsideMore(iv: Interval, got: seq<byte>, data: byte)
    requires Inside(iv, got) && |got| == Bytes(iv.shifts)
    ensures Inside(Double(iv), got + [data])
  {
    PrefixAgree(got, got + [data], |got|);
    InsideDouble(iv, got + [data]);
  }

  /** Comparing C with the shifted size of the lower half decides as the code value does. */
  lemma CutDecides(t: Table, iv: Interval, sv: state, got: seq<byte>, r: Registers)
    requires Cut(iv, got, r) && 0x8000 <= iv.size <= 0x1_0000
    ensures var rest := iv.size - Lookup(t, sv).qe;
            (r.c >= rest * Pow2(r.ct)) ==
            (Prefix(got, Bytes(iv.shifts)) >= (iv.low + rest) * Pow2(Slack(iv.shifts)))
    ensures Shift(iv.low + (iv.size - Lookup(t, sv).qe), r.ct) ==
            Shift(iv.low, r.ct) + (iv.size - Lookup(t, sv).qe) * Pow2(r.ct)
  {
    var rest := iv.size - Lookup(t, sv).qe;
    ShiftIsProduct(iv.low, r.ct);
    ShiftIsProduct(iv.low + rest, r.ct);
    MulAdd(iv.low, rest, Pow2(r.ct));
  }

  /** Deciding on the bytes fetched so far agrees with the coded sequence. */
  lemma CodedDecision(t: Table, start: seq<state>, hist: seq<Decision>, rem: seq<Decision>,
                      data: seq<byte>, got: seq<byte>)
    requires InRange(start, hist + rem) && Inside(Run(t, start, hist + rem).iv, data) && rem != []
    requires InRange(start, hist) && |got| == Bytes(Run(t, start, hist).iv.shifts)
    requires forall i: nat :: i < |got| ==> got[i] == Digit(data, i)
    ensures rem[0].bin < |start|
    ensures var m := Run(t, start, hist);
            Decide(t, m.iv, m.stats[rem[0].bin], got) == rem[0].bit
  {
    var n := |hist|;
    DecodeAll(t, start, hist + rem, data, n);
    assert (hist + rem)[..n] == hist && (hist + rem)[n] == rem[0];
    PrefixAgree(got, data, |got|);
  }

  class ArithDecoder {
    const table: Table
    const stats: array<state>
    const src: seq<byte>

    var pos: nat
    var unreadMarker: byte
    var c: int
    var a: int
    var ct: int

    // The segment so far: the statistics it started from, its decisions, the interval before the
    // postponed renormalization, and the data bytes fetched (zeros once the marker is reached).
    ghost var start: seq<state>
    ghost var hist: seq<Decision>
    ghost var iv: Interval
    ghost var got: seq<byte>

    constructor (bytes: seq<byte>, init: seq<state>, t: Table)
      ensures Valid() && fresh(stats) && src == bytes && table == t
      ensures start == stats[..] == init && hist == [] && got == [] && pos == 0 && unreadMarker == 0
    {
      table := t;
      src := bytes;
      stats := new state[|init|](i requires 0 <= i < |init| => init[i]);
      pos, unreadMarker, c, a, ct := 0, 0, 0, 0, -16;
      start, hist, got, iv := init, [], [], UNIT;
      new;
      assert stats[..] == init;
    }

    /** Before the first decision of a segment: nothing fetched, A still 0. */
    ghost predicate Fresh()
      reads this`c, this`a, this`ct, this`got
    {
      a == 0 && 0 <= |got| < 2 && ct == 8 * |got| - 16 && c == Value(got)
    }

    ghost predicate Running()
      reads this`c, this`a, this`ct, this`got, this`iv
    {
      && 0 < iv.size <= 0x1_0000
      && Cut(iv, got, Registers(c, a, ct)) && Inside(iv, got)
    }

    ghost predicate Valid()
      reads this, stats
    {
      && pos <= |src|
      && |start| == stats.Length && InRange(start, hist)
      && stats[..] == Run(table, start, hist).stats
      && (if a == 0 then Fresh() && got == [] && hist == []
          else Running() && Renorm(iv) == Run(table, start, hist).iv)
    }

    /** The source still holds the segment s, of which n data bytes have been taken. */
    ghost predicate Holds(s: Segment, n: nat)
      reads this`pos, this`unreadMarker
    {
      && pos <= |src| && IsMarker(s.marker)
      && if unreadMarker == 0 then n <= |s.data| && src[pos..] == Coming(s, n)
         else n >= |s.data| && unreadMarker == s.marker && src[pos..] == s.rest
    }

    /** The decoder is in the middle of segment s. */
    ghost predicate Feeds(s: Segment)
      reads this`pos, this`unreadMarker, this`got
    {
      && Holds(s, |got|)
      && forall i: nat :: i < |got| ==> got[i] == Digit(s.data, i)
    }

    method GetByte() returns (ok: bool, b: byte)
      requires pos <= |src|
      modifies this`pos
      ensures ok == (old(pos) < |src|)
      ensures ok ==> b == src[old(pos)] && pos == old(pos) + 1
      ensures !ok ==> pos == old(pos)
    {
      if pos == |src| {
        return false, 0;
      }
      ok, b := true, src[pos];
      pos := pos + 1;
    }

    /** Fetch the next data byte: stuffed zeros are dropped, and from the marker on zeros are supplied. */
    method FetchData(ghost s: Segment, ghost n: nat) returns (ok: bool, data: byte)
      requires pos <= |src|
      modifies this`pos, this`unreadMarker
      ensures pos <= |src|
      ensures old(Holds(s, n)) ==> ok && data == Digit(s.data, n) && Holds(s, n + 1)
    {
      data := 0;
      if unreadMarker != 0 {
        return true, 0;
      }
      ghost var coming := src[pos..];
      if Holds(s, n) {
        SegmentHead(s, n);
      }
      ok, data := GetByte();
      if ok && data == 0xFF {
        ok, data := GetByte();
        while ok && data == 0xFF
          invariant pos <= |src| && unreadMarker == 0
          invariant old(Holds(s, n)) ==> ok && data != 0xFF && data == coming[1] && src[pos..] == coming[2..]
          decreases |src| - pos, ok
        {
          ok, data := GetByte();
        }
        if ok && data == 0 {
          data := 0xFF;
        } else if ok {
          unreadMarker := data;
          data := 0;
        }
      }
    }

    /** One shift, with a byte fetched when the register has run out of bits; two bytes are read to begin with. */
    method ShiftOnce(ghost s: Segment) returns (ok: bool)
      requires pos <= |src| && a < 0x8000 && if a == 0 then Fresh() else Running()
      modifies this`pos, this`unreadMarker, this`c, this`a, this`ct, this`got, this`iv
      ensures ok ==> pos <= |src| && if a == 0 then Fresh() else Running()
      ensures ok && old(a) != 0 ==> a == 2 * old(a) && iv == Double(old(iv))
      ensures ok && old(a) == 0 ==> if a == 0 then |got| == |old(got)| + 1 else a == 0x1_0000 && iv == UNIT
      ensures old(Feeds(s)) ==> ok && Feeds(s)
    {
      hide Cut, Inside, Renorm, Coming, Value, Bytes, Slack;
      ok := true;
      ghost var iv0, got0, r0 := iv, got, Registers(c, a, ct);
      if a != 0 {
        CutIs(iv, got, r0);
      }
      ct := ct - 1;
      if ct < 0 {
        var data;
        ok, data := FetchData(s, |got|);
        if !ok {
          return;
        }
        c := c * 256 + data;
        got := got + [data];
        ct := ct + 8;
        if ct < 0 {
          ct := ct + 1;
          if ct == 0 {
            a := 0x8000;
          }
        }
        if r0.a == 0 {
          ValueAppend(got0, data);
          if |got| == 2 {
            UnitCut(got);
            iv := UNIT;
          }
        } else {
          CutFetch(iv0, got0, r0, data);
          InsideMore(iv0, got0, data);
          iv := Double(iv0);
        }
      } else {
        CutShift(iv0, got0, r0);
        InsideDouble(iv0, got0);
        iv := Double(iv0);
      }
      a := a * 2;
    }

    /** Renormalization and data input, postponed from the previous decision (section D.2.6). */
    method Renormalize(ghost s: Segment) returns (ok: bool)
      requires pos <= |src| && if a == 0 then Fresh() else Running()
      modifies this`pos, this`unreadMarker, this`c, this`a, this`ct, this`got, this`iv
      ensures ok ==> pos <= |src| && Running() && 0x8000 <= a <= 0x1_0000
      ensures ok ==> iv == if old(a) == 0 then UNIT else Renorm(old(iv))
      ensures old(Feeds(s)) ==> ok && Feeds(s)
    {
      hide Cut, Inside, Renorm, Value, Bytes, Slack, ArithDecoder.Holds;
      ok := true;
      if a != 0 {
        CutIs(iv, got, Registers(c, a, ct));
      }
      while ok && a < 0x8000
        invariant ok ==> pos <= |src| && if a == 0 then Fresh() else Running()
        invariant ok ==> a <= 0x1_0000 && (a == 0 ==> old(a) == 0)
        invariant ok && a != 0 ==> if old(a) == 0 then iv == UNIT else Renorm(iv) == Renorm(old(iv))
        invariant old(Feeds(s)) ==> ok && Feeds(s)
        decreases ok, if a == 0 then 2 - |got| else 0, 0x1_0000 - a
      {
        if a != 0 {
          CutIs(iv, got, Registers(c, a, ct));
          RenormStep(iv);
        }
        ok := ShiftOnce(s);
      }
      if ok {
        CutIs(iv, got, Registers(c, a, ct));
        RenormDone(iv);
      }
    }

    /** Compare C with the cut point and follow the subinterval it lies in (sections D.2.4, D.2.5). */
    method Choose(bin: nat) returns (bit: bool)
      requires bin < stats.Length && Cut(iv, got, Registers(c, a, ct)) && 0x8000 <= a <= 0x1_0000
      modifies this`c, this`a, stats
      ensures bit == Decide(table, iv, old(stats[bin]), got)
      ensures var lps := bit != old(stats[bin]).mps;
              && Cut(Narrow(table, iv, old(stats[bin]), lps), got, Registers(c, a, ct))
              && stats[..] == old(stats[..])[bin := NextState(table, iv, old(stats[bin]), lps)]
    {
      var sv := stats[bin];
      var qe := Lookup(table, sv).qe;
      var mps := sv.mps;
      CutDecides(table, iv, sv, got, Registers(c, a, ct));
      var temp := a - qe;
      a := temp;
      temp := temp * Pow2(ct);
      if c >= temp {
        c := c - temp;
        if a < qe {
          a := qe;
          stats[bin] := AfterMps(table, sv);
        } else {
          a := qe;
          stats[bin] := AfterLps(table, sv);
          mps := !mps;
        }
      } else if a < 0x8000 {
        if a < qe {
          stats[bin] := AfterLps(table, sv);
          mps := !mps;
        } else {
          stats[bin] := AfterMps(table, sv);
        }
      }
      return mps;
    }

    /** Decode one decision with one statistics bin. */
    method DecodeStep(bin: nat, ghost s: Segment) returns (ok: bool, bit: bool)
      requires Valid() && bin < stats.Length
      modifies this`pos, this`unreadMarker, this`c, this`a, this`ct, this`got, this`iv, this`hist, stats
      ensures ok ==> Valid() && hist == old(hist) + [Decision(bin, bit)]
      ensures ok ==> |got| == Bytes(Run(table, start, old(hist)).iv.shifts)
      ensures ok ==> bit == Decide(table, Run(table, start, old(hist)).iv, old(stats[bin]), got)
      ensures old(Feeds(s)) ==> ok && Feeds(s)
    {
      hide Cut, Inside, Renorm, Value, Bytes, Slack, ArithDecoder.Holds, Lookup, AfterLps, AfterMps;
      bit := false;
      ghost var m := Run(table, start, hist);
      UnitRenorm();
      ok := Renormalize(s);
      if !ok {
        return;
      }
      assert m.iv == iv;
      bit := Choose(bin);
      ghost var d := Decision(bin, bit);
      InsideNarrow(table, iv, m.stats[bin], bit != m.stats[bin].mps, got);
      RunAppend(table, start, hist, d);
      iv := Narrow(table, iv, m.stats[bin], bit != m.stats[bin].mps);
      hist := hist + [d];
    }

    lemma StatsNow()
      requires Valid()
      ensures InRange(start, hist) && stats[..] == Run(table, start, hist).stats
    {
    }

    /** The segment s codes, after the decisions taken so far, exactly the decisions rem. */
    ghost predicate Expects(s: Segment, rem: seq<Decision>)
      reads this`pos, this`unreadMarker, this`got, this`start, this`hist
    {
      && Feeds(s) && InRange(start, hist + rem)
      && Inside(Run(table, start, hist + rem).iv, s.data)
    }

    /** Decode one decision: on a segment coded with the same bins this is the coded decision. */
    method ArithDecode(bin: nat, ghost s: Segment, ghost rem: seq<Decision>) returns (ok: bool, bit: bool)
      requires Valid() && bin < stats.Length
      modifies this`pos, this`unreadMarker, this`c, this`a, this`ct, this`got, this`iv, this`hist, stats
      ensures ok ==> Valid() && hist == old(hist) + [Decision(bin, bit)]
      ensures old(Expects(s, rem)) && rem != [] && rem[0].bin == bin ==>
                ok && bit == rem[0].bit && Expects(s, rem[1..])
    {
      hide ArithDecoder.Valid, ArithDecoder.Holds, Run, InRange, Inside, Bytes, Decide, Digit;
      ghost var was := hist;
      StatsNow();
      ok, bit := DecodeStep(bin, s);
      if old(Expects(s, rem)) && rem != [] && rem[0].bin == bin {
        CodedDecision(table, start, was, rem, s.data, got);
        assert was + rem == hist + rem[1..];
      }
    }

    /** Skip to the next marker, over whatever data is left before it (jdmarker.c next_marker). */
    method NextMarker(ghost s: Segment, ghost n0: nat) returns (ok: bool)
      requires pos <= |src| && unreadMarker == 0
      modifies this`pos, this`unreadMarker
      ensures pos <= |src|
      ensures ok ==> unreadMarker != 0
      ensures old(Holds(s, n0)) ==> ok && unreadMarker == s.marker && src[pos..] == s.rest
    {
      hide Coming;
      ghost var good := Holds(s, n0);
      ghost var n: nat := n0;
      var c: byte := 0;
      while c == 0
        invariant pos <= |src| && unreadMarker == 0 && c != 0xFF
        invariant good ==> if c == 0 then n <= |s.data| && src[pos..] == Coming(s, n)
                           else c == s.marker && src[pos..] == s.rest
        decreases |src| - pos, c == 0
      {
        if good {
          SegmentHead(s, n);
        }
        ok, c := GetByte();
        while ok && c != 0xFF
          invariant pos <= |src| && unreadMarker == 0
          invariant good ==> ok && n <= |s.data| && c == Coming(s, n)[0] && src[pos..] == Coming(s, n)[1..]
          decreases |src| - pos, ok
        {
          if good {
            SegmentHead(s, n);
            n := n + 1;
            SegmentHead(s, n);
          }
          ok, c := GetByte();
        }
        if !ok {
          return;
        }
        if good {
          SegmentHead(s, n);
        }
        ok, c := GetByte();
        while ok && c == 0xFF
          invariant pos <= |src| && unreadMarker == 0
          invariant good ==> ok && n <= |s.data| && c == Coming(s, n)[1] && src[pos..] == Coming(s, n)[2..]
          invariant good ==> c == if n < |s.data| then 0 else s.marker
          decreases |src| - pos, ok
        {
          ok, c := GetByte();
        }
        if !ok {
          return;
        }
        n := if n < |s.data| then n + 1 else n;
      }
      unreadMarker := c;
      ok := true;
    }

    /** Expect restart marker num next; anything else is left to error recovery. */
    method ReadRestartMarker(num: nat, ghost s: Segment, ghost n: nat) returns (ok: bool)
      requires pos <= |src| && num < 8
      modifies this`pos, this`unreadMarker
      ensures pos <= |src|
      ensures ok ==> unreadMarker == 0
      ensures old(Holds(s, n)) && s.marker == 0xD0 + num ==> ok && src[pos..] == s.rest
    {
      if unreadMarker == 0 {
        ok := NextMarker(s, n);
        if !ok {
          return;
        }
      }
      ok := unreadMarker == 0xD0 + num;
      if ok {
        unreadMarker := 0;
      }
    }

    /** Reset the decoding registers so that the next decision reads two initial bytes. */
    method Restart()
      requires pos <= |src|
      modifies this`c, this`a, this`ct, this`got, this`hist, this`start
      ensures Valid() && start == stats[..] && hist == [] && got == []
    {
      c, a, ct := 0, 0, -16;
      got, hist, start := [], [], stats[..];
    }

    /** The error state after a corrupt magnitude or zero run. */
    method Fail()
      modifies this`ct
      ensures ct == -1
    {
      ct := -1;
    }
  }
}
