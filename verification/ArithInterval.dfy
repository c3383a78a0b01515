// The arithmetic coder on unbounded integers: a coding interval [low, low + size) at scale
// 2^(16 + shifts), narrowed by every decision, and the adaptive statistics that choose the split.
module ArithInterval {
  import opened Powers
  import opened Digits
  import opened ArithTable

  datatype Interval = Interval(low: nat, size: nat, shifts: nat)

  datatype Decision = Decision(bin: nat, bit: bool)

  datatype Model = Model(iv: Interval, stats: seq<state>)

  ghost predicate Normal(iv: Interval) {
    && 0x8000 <= iv.size <= 0x1_0000
    && iv.low + iv.size <= Pow2(16 + iv.shifts)
  }

  const UNIT := Interval(0, 0x1_0000, 0)

  lemma UnitIsNormal()
    ensures Normal(UNIT)
  {
    Pow2Values();
  }

  function Double(iv: Interval): Interval {
    Interval(2 * iv.low, 2 * iv.size, iv.shifts + 1)
  }

  function Renorm(iv: Interval): (r: Interval)
    requires 0 < iv.size <= 0x1_0000
    ensures 0x8000 <= r.size <= 0x1_0000
    decreases 0x1_0000 - iv.size
  {
    if iv.size >= 0x8000 then iv else Renorm(Double(iv))
  }

  /** The half of the interval that codes the less probable symbol when lps holds: the sizes are
      compared and the symbols trade places so that the more probable one gets the larger half. */
  function Narrow(t: Table, iv: Interval, sv: state, lps: bool): (r: Interval)
    requires 0x8000 <= iv.size <= 0x1_0000
    ensures 0 < r.size <= 0x1_0000 && r.shifts == iv.shifts
    ensures iv.low <= r.low && r.low + r.size <= iv.low + iv.size
  {
    var qe := Lookup(t, sv).qe;
    var rest := iv.size - qe;
    if lps == (rest >= qe) then
      iv.(low := iv.low + rest, size := qe)
    else
      iv.(size := rest)
  }

  function NextState(t: Table, iv: Interval, sv: state, lps: bool): state
    requires 0x8000 <= iv.size <= 0x1_0000
  {
    if lps then AfterLps(t, sv)
    else if iv.size - Lookup(t, sv).qe >= 0x8000 then sv
    else AfterMps(t, sv)
  }

  function Step(t: Table, m: Model, d: Decision): (r: Model)
    requires d.bin < |m.stats| && 0x8000 <= m.iv.size <= 0x1_0000
    ensures |r.stats| == |m.stats| && 0x8000 <= r.iv.size <= 0x1_0000
  {
    var sv := m.stats[d.bin];
    var lps := d.bit != sv.mps;
    Model(Renorm(Narrow(t, m.iv, sv, lps)), m.stats[d.bin := NextState(t, m.iv, sv, lps)])
  }

  predicate InRange(stats: seq<state>, ds: seq<Decision>) {
    forall i :: 0 <= i < |ds| ==> ds[i].bin < |stats|
  }

  /** The model after coding ds, starting from the unit interval. */
  function Run(t: Table, stats: seq<state>, ds: seq<Decision>): (r: Model)
    requires InRange(stats, ds)
    ensures |r.stats| == |stats| && 0x8000 <= r.iv.size <= 0x1_0000
  {
    if ds == [] then Model(UNIT, stats)
    else Step(t, Run(t, stats, ds[..|ds| - 1]), ds[|ds| - 1])
  }

  lemma RunAppend(t: Table, stats: seq<state>, ds: seq<Decision>, d: Decision)
    requires InRange(stats, ds) && d.bin < |stats|
    ensures Run(t, stats, ds + [d]) == Step(t, Run(t, stats, ds), d)
  {
    assert (ds + [d])[..|ds|] == ds;
  }

  // ----- the interval never leaves the unit interval

  lemma {:induction false} RenormFits(iv: Interval)
    requires 0 < iv.size <= 0x1_0000
    requires iv.low + iv.size <= Pow2(16 + iv.shifts)
    ensures Normal(Renorm(iv))
    decreases 0x1_0000 - iv.size
  {
    if iv.size < 0x8000 {
      RenormFits(Double(iv));
    }
  }

  lemma {:induction false} RunIsNormal(t: Table, stats: seq<state>, ds: seq<Decision>)
    requires InRange(stats, ds)
    ensures Normal(Run(t, stats, ds).iv)
  {
    if ds == [] {
      UnitIsNormal();
    } else {
      var ds', d := ds[..|ds| - 1], ds[|ds| - 1];
      RunIsNormal(t, stats, ds');
      var m := Run(t, stats, ds');
      RenormFits(Narrow(t, m.iv, m.stats[d.bin], d.bit != m.stats[d.bin].mps));
    }
  }

  // ----- code values inside an interval

  /** The whole bytes that cover 16 + shifts bits, and the bits left over. */
  function Bytes(shifts: nat): nat { (shifts + 23) / 8 }

  function Slack(shifts: nat): nat
    ensures Slack(shifts) <= 7
  {
    8 * Bytes(shifts) - 16 - shifts
  }

  /** The code value with base-256 digits d, read to m bytes, lies in the interval. */
  ghost predicate InsideAt(iv: Interval, d: seq<byte>, m: nat)
    requires 8 * m >= 16 + iv.shifts
  {
    var p := Pow2(8 * m - 16 - iv.shifts);
    iv.low * p <= Prefix(d, m) < (iv.low + iv.size) * p
  }

  ghost predicate Inside(iv: Interval, d: seq<byte>) {
    InsideAt(iv, d, Bytes(iv.shifts))
  }

  /** The precision at which membership is tested does not matter. */
  lemma InsideAtAny(iv: Interval, d: seq<byte>, m: nat)
    requires m >= Bytes(iv.shifts)
    ensures InsideAt(iv, d, m) <==> Inside(iv, d)
  {
    var b := Bytes(iv.shifts);
    var k := m - b;
    var p, q := Pow2(Slack(iv.shifts)), Pow2(8 * k);
    assert Pow2(8 * m - 16 - iv.shifts) == p * q by { Pow2Add(Slack(iv.shifts), 8 * k); }
    PrefixSplit(d, b, k);
    var rest := Prefix(d, m) - Prefix(d, b) * q;
    assert (Prefix(d, b) + 1) * q == Prefix(d, b) * q + q;
    CompareQuotient(Prefix(d, b), rest, q, iv.low * p);
    CompareQuotient(Prefix(d, b), rest, q, (iv.low + iv.size) * p);
    MulAssociateLeft(iv.low, p, q);
    MulAssociateLeft(iv.low + iv.size, p, q);
  }

  lemma InsideDouble(iv: Interval, d: seq<byte>)
    ensures Inside(Double(iv), d) <==> Inside(iv, d)
  {
    var m := Bytes(iv.shifts + 1);
    InsideAtAny(iv, d, m);
    var p := Pow2(Slack(iv.shifts + 1));
    assert Pow2(8 * m - 16 - iv.shifts) == 2 * p;
    MulAssociate(2, iv.low, p);
    MulAssociate(2, iv.low + iv.size, p);
    MulAssociateLeft(2, iv.low, p);
    MulAssociateLeft(2, iv.low + iv.size, p);
  }

  lemma {:induction false} InsideRenorm(iv: Interval, d: seq<byte>)
    requires 0 < iv.size <= 0x1_0000
    ensures Inside(Renorm(iv), d) <==> Inside(iv, d)
    decreases 0x1_0000 - iv.size
  {
    if iv.size < 0x8000 {
      InsideRenorm(Double(iv), d);
      InsideDouble(iv, d);
    }
  }

  /** The decision a decoder takes: which half of the interval does the code value lie in? */
  ghost function Decide(t: Table, iv: Interval, sv: state, d: seq<byte>): bool
    requires 0x8000 <= iv.size <= 0x1_0000
  {
    var qe := Lookup(t, sv).qe;
    var upper := Prefix(d, Bytes(iv.shifts)) >= (iv.low + (iv.size - qe)) * Pow2(Slack(iv.shifts));
    sv.mps != (upper == (iv.size - qe >= qe))
  }

  lemma InsideNarrow(t: Table, iv: Interval, sv: state, lps: bool, d: seq<byte>)
    requires 0x8000 <= iv.size <= 0x1_0000
    ensures Inside(Narrow(t, iv, sv, lps), d) <==>
            Inside(iv, d) && Decide(t, iv, sv, d) == (sv.mps != lps)
  {
    var qe := Lookup(t, sv).qe;
    var p := Pow2(Slack(iv.shifts));
    MulMonotone(iv.low, iv.low + (iv.size - qe), p);
    MulMonotone(iv.low + (iv.size - qe), iv.low + iv.size, p);
  }

  /** One decision is decoded exactly when the code value lies in the narrowed interval. */
  lemma DecodeOne(t: Table, m: Model, x: Decision, d: seq<byte>)
    requires x.bin < |m.stats| && 0x8000 <= m.iv.size <= 0x1_0000
    ensures Inside(Step(t, m, x).iv, d) <==>
            Inside(m.iv, d) && Decide(t, m.iv, m.stats[x.bin], d) == x.bit
  {
    var sv := m.stats[x.bin];
    var lps := x.bit != sv.mps;
    InsideRenorm(Narrow(t, m.iv, sv, lps), d);
    InsideNarrow(t, m.iv, sv, lps, d);
  }

  /** Any code value inside the final interval lies in every earlier one and decodes, decision by
      decision and with the same statistics, to the coded sequence. */
  lemma {:induction false} DecodeAll(t: Table, stats: seq<state>, ds: seq<Decision>, d: seq<byte>, i: nat)
    requires InRange(stats, ds) && i <= |ds|
    requires Inside(Run(t, stats, ds).iv, d)
    ensures Inside(Run(t, stats, ds[..i]).iv, d)
    ensures i < |ds| ==>
              var m := Run(t, stats, ds[..i]);
              Decide(t, m.iv, m.stats[ds[i].bin], d) == ds[i].bit
    decreases |ds|
  {
    if i == |ds| {
      assert ds[..i] == ds;
    } else {
      var n := |ds| - 1;
      DecodeOne(t, Run(t, stats, ds[..n]), ds[n], d);
      if i < n {
        DecodeAll(t, stats, ds[..n], d, i);
        assert ds[..n][..i] == ds[..i];
      }
    }
  }
}
