// The marker writer. A ghost copy follows what a reader of the headers holds: tables are sent once, and are then
// known to the reader.
module MarkerWriter {
  import opened Digits
  import opened Segments
  import opened MarkerSyntax
  import opened MarkerResume
  import opened MarkerPrint

  /** What the compressor's settings fix for all scans. */
  datatype Settings = Settings(arith: bool, progressive: bool, precision: byte, height: nat, width: nat, blockSize: nat,
                               comps: seq<CompSpec>, quants: Quants, huffs: Huffs, cond: Conditioning)

  /** The number of coefficients coded in a block, lim_Se + 1. */
  function Count(s: Settings): nat {
    if s.blockSize < 8 then s.blockSize * s.blockSize else DCTSIZE2
  }

  function NaturalOrder(os: Orders, s: Settings): seq<nat> {
    if 2 <= s.blockSize <= 7 then os.small[s.blockSize] else os.full
  }

  ghost predicate AreSettings(s: Settings) {
    && 1 <= s.blockSize <= 16 && 0 < s.height && 0 < s.width && 0 < |s.comps| <= 10
    && (forall i :: 0 <= i < |s.comps| ==> CompFits(s.comps[i]) && s.comps[i].dcTbl < 16 && s.comps[i].acTbl < 16
                                           && (!s.arith ==> s.comps[i].dcTbl < NUM_HUFF_TBLS && s.comps[i].acTbl < NUM_HUFF_TBLS))
    && DistinctIds(s.comps) && |s.quants| == NUM_QUANT_TBLS && AreHuffs(s.huffs) && ConditioningOk(s.cond)
    && (forall n :: 0 <= n < NUM_QUANT_TBLS && s.quants[n].Some? ==> QuantFits(s.quants[n].value))
    && (forall n :: 0 <= n < NUM_HUFF_TBLS ==> (s.huffs.dc[n].Some? ==> IsSpec(s.huffs.dc[n].value))
                                               && (s.huffs.ac[n].Some? ==> IsSpec(s.huffs.ac[n].value)))
  }

  // A 16-bit table.
  predicate QuantFits(q: Quant) {
    forall k :: 0 <= k < 64 ==> q[k] < 0x1_0000
  }

  /** The decoder chooses the order the encoder used by the number of entries. */
  lemma OrderAgrees(os: Orders, s: Settings)
    requires AreOrders(os) && 1 <= s.blockSize <= 16
    ensures 0 < Count(s) <= 64 && NaturalOrder(os, s) == OrderFor(os, Count(s))
    ensures IsOrderOf(NaturalOrder(os, s), Count(s))
  {
    OrderIs(os, Count(s));
  }

  /** The entries of a table that blocks of this size use. */
  ghost predicate SameQuant(order: seq<nat>, count: nat, q: Quant, r: Quant) {
    count <= |order| && forall k :: 0 <= k < count && order[k] < 64 ==> r[order[k]] == q[order[k]]
  }

  /** Which tables were sent, and the last restart interval. */
  datatype Flags = Flags(quant: seq<bool>, dc: seq<bool>, ac: seq<bool>, restart: nat)

  ghost predicate AreFlags(f: Flags) {
    |f.quant| == NUM_QUANT_TBLS && |f.dc| == NUM_HUFF_TBLS && |f.ac| == NUM_HUFF_TBLS
  }

  /** A reader knows every table marked as sent, and the restart interval. */
  ghost predicate Knows(os: Orders, s: Settings, f: Flags, st: State) {
    && AreFlags(f) && IsState(st) && st.sawSoi && st.restartInterval == f.restart
    && |s.quants| == NUM_QUANT_TBLS && AreHuffs(s.huffs)
    && (forall n :: 0 <= n < NUM_QUANT_TBLS && f.quant[n] ==>
          s.quants[n].Some? && st.quants[n].Some? &&
              SameQuant(NaturalOrder(os, s), Count(s), s.quants[n].value, st.quants[n].value))
    && (forall n :: 0 <= n < NUM_HUFF_TBLS && f.dc[n] ==> s.huffs.dc[n].Some? && st.huffs.dc[n] == s.huffs.dc[n])
    && (forall n :: 0 <= n < NUM_HUFF_TBLS && f.ac[n] ==> s.huffs.ac[n].Some? && st.huffs.ac[n] == s.huffs.ac[n])
  }

  // ----- reading what is written

  /** Wherever bs stands, reading it takes a reader from st to st'. */
  ghost predicate Leads(os: Orders, bs: seq<byte>, st: State, st': State) {
    && AreOrders(os) && IsState(st) && IsState(st')
    && forall d, at: nat :: Has(d, at, bs) && at + |bs| <= |d| ==> Run(os, d, at, st) == Run(os, d, at + |bs|, st')
  }

  /** Reading it ends in a scan. */
  ghost predicate Ends(os: Orders, bs: seq<byte>, st: State, st': State) {
    && AreOrders(os) && IsState(st)
    && forall d, at: nat :: Has(d, at, bs) && at + |bs| <= |d| ==> Run(os, d, at, st) == ReachedSos(st', at + |bs|)
  }

  lemma LeadsNowhere(os: Orders, st: State)
    requires AreOrders(os) && IsState(st)
    ensures Leads(os, [], st, st)
  {
  }

  lemma LeadsOn(os: Orders, a: seq<byte>, b: seq<byte>, st: State, st': State, st'': State)
    requires Leads(os, a, st, st') && Leads(os, b, st', st'')
    ensures Leads(os, a + b, st, st'')
  {
    hide Run, Has, AreOrders, IsState;
    forall d, at: nat | Has(d, at, a + b) && at + |a + b| <= |d|
      ensures Run(os, d, at, st) == Run(os, d, at + |a + b|, st'')
    {
      HasBoth(d, at, a, b);
    }
  }

  lemma EndsOn(os: Orders, a: seq<byte>, b: seq<byte>, st: State, st': State, st'': State)
    requires Leads(os, a, st, st') && Ends(os, b, st', st'')
    ensures Ends(os, a + b, st, st'')
  {
    hide Run, Has, AreOrders, IsState;
    forall d, at: nat | Has(d, at, a + b) && at + |a + b| <= |d|
      ensures Run(os, d, at, st) == ReachedSos(st'', at + |a + b|)
    {
      HasBoth(d, at, a, b);
    }
  }

  function Marker(code: byte): seq<byte> {
    [0xFF, code]
  }

  /** A marker is found where it stands. */
  lemma MarkerFound(d: seq<byte>, at: nat, code: byte, payload: seq<byte>)
    requires Has(d, at, Marker(code) + payload) && 0 < code < 0xFF
    ensures at + 2 <= |d| && FindMarker(d, at) == Found(code, at + 2) && Has(d, at + 2, payload)
  {
    HasBoth(d, at, Marker(code), payload);
    ByteAt(d, at, Marker(code), 0);
    ByteAt(d, at, Marker(code), 1);
    assert SkipFill(d, at + 1) == at + 1;
  }

  /** The parameters of a marker take a reader from st to st'. */
  ghost predicate Steps(os: Orders, code: byte, payload: seq<byte>, st: State, st': State) {
    && AreOrders(os) && IsState(st) && IsState(st')
    && forall d, at: nat :: Has(d, at, payload) && at + |payload| <= |d| ==>
        Step(os, d, code, at, st) == Done(st', at + |payload|)
  }

  lemma SegmentLeads(os: Orders, code: byte, payload: seq<byte>, st: State, st': State)
    requires 0 < code < 0xFF && code != M_SOS && code != M_EOI && st.sawSoi && Steps(os, code, payload, st, st')
    ensures Leads(os, Marker(code) + payload, st, st')
  {
    hide Step, Has, FindMarker, AreOrders, IsState, Marker;
    forall d, at: nat | Has(d, at, Marker(code) + payload) && at + |Marker(code) + payload| <= |d|
      ensures Run(os, d, at, st) == Run(os, d, at + |Marker(code) + payload|, st')
    {
      MarkerFound(d, at, code, payload);
      MarkerLength(code);
    }
  }

  lemma MarkerLength(code: byte)
    ensures |Marker(code)| == 2
  {
  }

  lemma ScanEnds(os: Orders, payload: seq<byte>, st: State, st': State)
    requires st.sawSoi && Steps(os, M_SOS, payload, st, st')
    ensures Ends(os, Marker(M_SOS) + payload, st, st')
  {
    hide Step, Has, FindMarker, AreOrders, IsState, Marker;
    forall d, at: nat | Has(d, at, Marker(M_SOS) + payload) && at + |Marker(M_SOS) + payload| <= |d|
      ensures Run(os, d, at, st) == ReachedSos(st', at + |Marker(M_SOS) + payload|)
    {
      MarkerFound(d, at, M_SOS, payload);
      MarkerLength(M_SOS);
    }
  }

  // ----- the segments

  predicate IsWide(q: Quant, order: seq<nat>, count: nat)
    requires IsOrderOf(order, count)
  {
    exists k :: 0 <= k < count && q[order[k]] > 255
  }

  lemma DqtSteps(os: Orders, s: Settings, f: Flags, st: State, n: nat) returns (st': State)
    requires AreOrders(os) && AreSettings(s) && Knows(os, s, f, st) && n < NUM_QUANT_TBLS && s.quants[n].Some?
    requires IsOrderOf(NaturalOrder(os, s), Count(s))
    ensures var wide := IsWide(s.quants[n].value, NaturalOrder(os, s), Count(s));
            Steps(os, M_DQT, DqtPayload(s.quants[n].value, NaturalOrder(os, s), Count(s), wide, n), st, st')
    ensures st' == st.(quants := st'.quants) && Knows(os, s, f.(quant := f.quant[n := true]), st')
  {
    hide DqtPayload, Has, ParseDqt, AreOrders, Blank, Copied, NaturalOrder;
    OrderAgrees(os, s);
    var order, count, q := NaturalOrder(os, s), Count(s), s.quants[n].value;
    var wide := IsWide(q, order, count);
    var r := Copied(Blank(st.quants[n], count), q, order, 0, count);
    st' := st.(quants := st.quants[n := Some(r)]);
    var payload := DqtPayload(q, order, count, wide, n);
    forall d, at: nat | Has(d, at, payload) && at + |payload| <= |d|
      ensures Step(os, d, M_DQT, at, st) == Done(st', at + |payload|)
    {
      DqtRead(os, d, at, st.quants, q, count, wide, n);
    }
    assert SameQuant(order, count, q, r) by {
      forall k | 0 <= k < count
        ensures r[order[k]] == q[order[k]]
      {
        CopiedEntry(Blank(st.quants[n], count), q, order, 0, count, k);
      }
    }
  }

  function HuffOf(h: Huffs, ac: bool, n: nat): Option<HuffSpec>
    requires AreHuffs(h) && n < NUM_HUFF_TBLS
  {
    if ac then h.ac[n] else h.dc[n]
  }

  function MarkHuff(f: Flags, ac: bool, n: nat): (r: Flags)
    requires AreFlags(f) && n < NUM_HUFF_TBLS
    ensures AreFlags(r)
  {
    if ac then f.(ac := f.ac[n := true]) else f.(dc := f.dc[n := true])
  }

  lemma DhtSteps(os: Orders, s: Settings, f: Flags, st: State, ac: bool, n: nat) returns (st': State)
    requires AreOrders(os) && AreSettings(s) && Knows(os, s, f, st) && n < NUM_HUFF_TBLS && HuffOf(s.huffs, ac, n).Some?
    ensures Steps(os, M_DHT, DhtPayload(HuffOf(s.huffs, ac, n).value, ac, n), st, st')
    ensures st' == st.(huffs := st'.huffs) && Knows(os, s, MarkHuff(f, ac, n), st')
  {
    hide DhtPayload, Has, ParseDht, AreOrders, NaturalOrder, Total, SameQuant;
    var t := HuffOf(s.huffs, ac, n).value;
    st' := st.(huffs := SetHuff(st.huffs, (ac, n), t));
    var payload := DhtPayload(t, ac, n);
    forall d, at: nat | Has(d, at, payload) && at + |payload| <= |d|
      ensures Step(os, d, M_DHT, at, st) == Done(st', at + |payload|)
    {
      DhtRead(d, at, st.huffs, t, ac, n);
    }
  }

  lemma DriSteps(os: Orders, s: Settings, f: Flags, st: State, v: nat) returns (st': State)
    requires AreOrders(os) && Knows(os, s, f, st) && v < 0x1_0000
    ensures Steps(os, M_DRI, TwoBytes(4) + TwoBytes(v), st, st')
    ensures st' == st.(restartInterval := v) && Knows(os, s, f.(restart := v), st')
  {
    hide Has, ParseDri, AreOrders, NaturalOrder, SameQuant, TwoBytes;
    st' := st.(restartInterval := v);
    var payload := TwoBytes(4) + TwoBytes(v);
    forall d, at: nat | Has(d, at, payload) && at + |payload| <= |d|
      ensures Step(os, d, M_DRI, at, st) == Done(st', at + |payload|)
    {
      DriRead(d, at, st.restartInterval, v);
    }
  }

  lemma DacSteps(os: Orders, s: Settings, f: Flags, st: State, entries: seq<nat>) returns (st': State)
    requires AreOrders(os) && Knows(os, s, f, st) && ConditioningOk(s.cond) && |entries| <= 32
    requires forall i :: 0 <= i < |entries| ==> entries[i] < 2 * NUM_ARITH_TBLS
    ensures Steps(os, M_DAC, TwoBytes(2 * |entries| + 2) + DacBytes(s.cond, entries), st, st')
    ensures st' == st.(cond := st'.cond) && Knows(os, s, f, st')
    ensures forall e: nat :: e in entries && e < 2 * NUM_ARITH_TBLS ==> Entry(st'.cond, e) == Entry(s.cond, e)
  {
    hide Has, ParseDac, AreOrders, NaturalOrder, SameQuant, TwoBytes, DacBytes, SetEntries, Entry;
    st' := st.(cond := SetEntries(st.cond, s.cond, entries));
    var payload := TwoBytes(2 * |entries| + 2) + DacBytes(s.cond, entries);
    forall d, at: nat | Has(d, at, payload) && at + |payload| <= |d|
      ensures Step(os, d, M_DAC, at, st) == Done(st', at + |payload|)
    {
      DacRead(d, at, st.cond, s.cond, entries);
    }
    forall e: nat | e in entries && e < 2 * NUM_ARITH_TBLS
      ensures Entry(st'.cond, e) == Entry(s.cond, e)
    {
      EntryRead(st.cond, s.cond, entries, e);
    }
  }

  lemma SkipSteps(os: Orders, st: State, code: byte, data: seq<byte>)
    requires AreOrders(os) && IsState(st) && IsSkipped(code) && |data| <= 65533
    ensures Steps(os, code, TwoBytes(|data| + 2) + data, st, st)
  {
    hide AreOrders, TwoBytes, Has;
    var payload := TwoBytes(|data| + 2) + data;
    forall d, at: nat | Has(d, at, payload) && at + |payload| <= |d|
      ensures Step(os, d, code, at, st) == Done(st, at + |payload|)
    {
      SkipRead(d, at, data);
    }
  }

  /** The frame type of a SOF marker. */
  function SofCode(s: Settings, baseline: bool): byte {
    if s.arith then (if s.progressive then M_SOF10 else M_SOF9)
    else if s.progressive then M_SOF2 else if baseline then M_SOF0 else M_SOF1
  }

  lemma SofSteps(os: Orders, s: Settings, f: Flags, st: State, baseline: bool) returns (st': State)
    requires AreOrders(os) && AreSettings(s) && Knows(os, s, f, st) && !st.sawSof && s.height < 0x1_0000 &&
             s.width < 0x1_0000
    requires baseline ==> !s.arith && !s.progressive
    ensures Steps(os, SofCode(s, baseline), SofPayload(s.precision, s.height, s.width, s.comps), st, st')
    ensures Knows(os, s, f, st')
    ensures st' == st.(frame := Frame(baseline, s.progressive, s.arith, s.precision, s.height, s.width, |s.comps|),
                       comps := AllDescribed(s.comps, |s.comps|), sawSof := true)
  {
    hide Has, ParseSof, AreOrders, NaturalOrder, SameQuant, SofPayload, AllDescribed, Total;
    st' := st.(frame := Frame(baseline, s.progressive, s.arith, s.precision, s.height, s.width, |s.comps|),
               comps := AllDescribed(s.comps, |s.comps|), sawSof := true);
    var payload, code := SofPayload(s.precision, s.height, s.width, s.comps), SofCode(s, baseline);
    forall d, at: nat | Has(d, at, payload) && at + |payload| <= |d|
      ensures Step(os, d, code, at, st) == Done(st', at + |payload|)
    {
      SofRead(d, at, s.precision, s.height, s.width, s.comps, code == M_SOF0, code == M_SOF2 || code == M_SOF10,
              code == M_SOF9 || code == M_SOF10);
    }
  }

  /** What a scan header can say. */
  ghost predicate IsScanSpec(s: Settings, sc: ScanSpec) {
    && InFrame(sc, s.comps) && |sc.comps| <= MAX_COMPS_IN_SCAN && (sc.comps == [] ==> s.progressive)
    && sc.ss < 256 && sc.se < 256 && sc.ah < 16 && sc.al < 16
  }

  /** The reader has the frame. */
  ghost predicate HasFrame(s: Settings, st: State) {
    && st.sawSof && st.frame.progressive == s.progressive && |st.comps| == |s.comps|
    && DistinctIds(st.comps) && SameIds(st.comps, s.comps) && SameSampling(st.comps, s.comps)
  }

  /** The sampling factors and quantization tables of the components. */
  predicate SameSampling(rs: seq<CompSpec>, comps: seq<CompSpec>) {
    && |rs| == |comps|
    && forall c :: 0 <= c < |comps| ==>
        rs[c].hSamp == comps[c].hSamp && rs[c].vSamp == comps[c].vSamp && rs[c].quantTbl == comps[c].quantTbl
  }

  lemma SosSteps(os: Orders, s: Settings, f: Flags, st: State, sc: ScanSpec) returns (st': State)
    requires AreOrders(os) && Knows(os, s, f, st) && IsScanSpec(s, sc) && HasFrame(s, st)
    ensures Steps(os, M_SOS, SosPayload(s.comps, sc), st, st')
    ensures Knows(os, s, f, st')
    ensures st' == st.(comps := Selected(st.comps, s.comps, sc, 0), scan := sc, nextRestartNum := 0,
                       inputScanNumber := st.inputScanNumber + (if sc.comps != [] then 1 else 0))
  {
    hide Has, ParseSos, AreOrders, NaturalOrder, SameQuant, SosPayload, Selected, DistinctIds, SameIds;
    st' := st.(comps := Selected(st.comps, s.comps, sc, 0), scan := sc, nextRestartNum := 0,
               inputScanNumber := st.inputScanNumber + (if sc.comps != [] then 1 else 0));
    var payload := SosPayload(s.comps, sc);
    forall d, at: nat | Has(d, at, payload) && at + |payload| <= |d|
      ensures Step(os, d, M_SOS, at, st) == Done(st', at + |payload|)
    {
      SosRead(d, at, st.comps, s.comps, sc, s.progressive);
    }
  }

  // ----- the writer

  class MarkerWriter {
    const os: Orders
    const s: Settings
    var out: seq<byte>
    var lastRestartInterval: nat
    var sentQuant: seq<bool>
    var sentDc: seq<bool>
    var sentAc: seq<bool>
    // What a reader of the output so far holds.
    ghost var reader: State

    ghost function FlagsNow(): Flags
      reads this
    {
      Flags(sentQuant, sentDc, sentAc, lastRestartInterval)
    }

    ghost predicate Valid()
      reads this
    {
      AreOrders(os) && AreSettings(s) && Knows(os, s, FlagsNow(), reader)
    }

    /** The bytes written since there were n. */
    ghost function Since(n: nat): seq<byte>
      requires n <= |out|
      reads this
    {
      out[n..]
    }

    /** Writes SOI for a reader that starts here; tables may have been sent before, in a datastream of their own. */
    constructor (os: Orders, s: Settings, sentQuant: seq<bool>, sentDc: seq<bool>, sentAc: seq<bool>,
                 ghost start: State)
      requires AreOrders(os) && AreSettings(s) && IsState(start) && !start.sawSoi
      requires Knows(os, s, Flags(sentQuant, sentDc, sentAc, 0), AfterSoi(start))
      ensures this.os == os && this.s == s && Valid() && reader == AfterSoi(start) && Leads(os, out, start, reader)
    {
      this.os := os;
      this.s := s;
      this.sentQuant := sentQuant;
      this.sentDc := sentDc;
      this.sentAc := sentAc;
      out := [0xFF, M_SOI];
      lastRestartInterval := 0;
      reader := AfterSoi(start);
      new;
      SoiLeads(os, start);
    }

    method EmitByte(val: byte)
      modifies `out
      ensures out == old(out) + [val]
    {
      out := out + [val];
    }

    method EmitMarker(mark: byte)
      modifies `out
      ensures out == old(out) + Marker(mark)
    {
      EmitByte(0xFF);
      EmitByte(mark);
    }

    method Emit2Bytes(value: nat)
      modifies `out
      ensures out == old(out) + TwoBytes(value)
    {
      EmitByte(value / 256 % 256);
      EmitByte(value % 256);
    }

    /** emit_dqt: sends table n unless it was sent. Its precision is returned, or None if there is no table. */
    method EmitDqt(n: nat) returns (prec: Option<nat>)
      requires Valid() && n < NUM_QUANT_TBLS
      modifies `out, `sentQuant, `reader
      ensures prec.None? <==> s.quants[n].None?
      ensures prec.None? ==> unchanged(this)
      ensures prec.Some? ==> Valid() && sentQuant == old(sentQuant)[n := true] && IsOrderOf(NaturalOrder(os, s), Count(s))
                             && prec.value == (if IsWide(s.quants[n].value, NaturalOrder(os, s),
                                 Count(s)) then 1 else 0)
      ensures prec.Some? ==> old(out) <= out && Leads(os, Since(|old(out)|), old(reader), reader)
                             && reader == old(reader).(quants := reader.quants)
    {
      hide AreOrders, AreSettings, Knows, NaturalOrder, Leads, IsOrderOf, Steps;
      OrderOk();
      if s.quants[n].None? {
        return None;
      }
      var q, count := s.quants[n].value, Count(s);
      var order := NaturalOrder(os, s);
      var wide := HasWide(q, order, count);
      if sentQuant[n] {
        assert sentQuant[n := true] == sentQuant && Since(|out|) == [];
        LeadsNowhere(os, reader);
      } else {
        WriteDqt(q, order, count, wide, n);
        ghost var st := DqtSteps(os, s, FlagsNow(), reader, n);
        SegmentLeads(os, M_DQT, DqtPayload(q, order, count, wide, n), reader, st);
        assert Since(|old(out)|) == Marker(M_DQT) + DqtPayload(q, order, count, wide, n);
        reader := st;
        sentQuant := sentQuant[n := true];
      }
      prec := Some(if wide then 1 else 0);
    }

    lemma OrderOk()
      requires Valid()
      ensures 0 < Count(s) <= 64 && IsOrderOf(NaturalOrder(os, s), Count(s)) && reader.sawSoi && IsState(reader) &&
              |sentQuant| == NUM_QUANT_TBLS
      ensures |sentDc| == NUM_HUFF_TBLS && |sentAc| == NUM_HUFF_TBLS && |s.quants| == NUM_QUANT_TBLS &&
              AreHuffs(s.huffs)
    {
      OrderAgrees(os, s);
    }

    method HasWide(q: Quant, order: seq<nat>, count: nat) returns (wide: bool)
      requires IsOrderOf(order, count)
      ensures wide == IsWide(q, order, count)
    {
      wide := false;
      for i := 0 to count
        invariant wide <==> exists k :: 0 <= k < i && q[order[k]] > 255
      {
        if q[order[i]] > 255 {
          wide := true;
        }
      }
    }

    method WriteDqt(q: Quant, order: seq<nat>, count: nat, wide: bool, n: nat)
      requires IsOrderOf(order, count) && n < NUM_QUANT_TBLS && 0 < count
      modifies `out
      ensures out == old(out) + (Marker(M_DQT) + DqtPayload(q, order, count, wide, n))
    {
      EmitMarker(M_DQT);
      Emit2Bytes(if wide then (count - 1) * 2 + 2 + 1 + 2 else (count - 1) + 1 + 1 + 2);
      EmitByte(n + (if wide then 16 else 0));
      ghost var head := out;
      for i := 0 to count
        invariant out + QuantBytes(q, order, i, count, wide) == head + QuantBytes(q, order, 0, count, wide)
      {
        var qval := q[order[i]];
        ghost var rest := QuantBytes(q, order, i + 1, count, wide);
        ghost var before := out;
        if wide {
          EmitByte(qval / 256 % 256);
        }
        EmitByte(qval % 256);
        assert out + rest == before + QuantBytes(q, order, i, count, wide);
      }
      assert out + [] == out;
    }

    /** emit_dht: sends a Huffman table unless it was sent. */
    method EmitDht(n: nat, ac: bool) returns (ok: bool)
      requires Valid() && n < NUM_HUFF_TBLS && AreHuffs(s.huffs)
      modifies `out, `sentDc, `sentAc, `reader
      ensures ok <==> HuffOf(s.huffs, ac, n).Some?
      ensures !ok ==> unchanged(this)
      ensures ok ==> Valid() && FlagsNow() == MarkHuff(old(FlagsNow()), ac, n) && HuffOf(reader.huffs, ac, n) == HuffOf(s.huffs, ac, n)
      ensures ok ==> old(out) <= out && Leads(os, Since(|old(out)|), old(reader), reader)
                     && reader == old(reader).(huffs := reader.huffs)
    {
      hide AreOrders, AreSettings, NaturalOrder, Leads, IsOrderOf, Steps, Total, SameQuant;
      OrderOk();
      var htbl := if ac then s.huffs.ac[n] else s.huffs.dc[n];
      if htbl.None? {
        return false;
      }
      if if ac then sentAc[n] else sentDc[n] {
        assert sentAc[n] ==> sentAc[n := true] == sentAc;
        assert sentDc[n] ==> sentDc[n := true] == sentDc;
        assert Since(|out|) == [];
        LeadsNowhere(os, reader);
      } else {
        SpecOk(ac, n);
        WriteDht(htbl.value, ac, n);
        ghost var st := DhtSteps(os, s, FlagsNow(), reader, ac, n);
        SegmentLeads(os, M_DHT, DhtPayload(htbl.value, ac, n), reader, st);
        assert Since(|old(out)|) == Marker(M_DHT) + DhtPayload(htbl.value, ac, n);
        reader := st;
        if ac {
          sentAc := sentAc[n := true];
        } else {
          sentDc := sentDc[n := true];
        }
      }
      ok := true;
    }

    lemma SpecOk(ac: bool, n: nat)
      requires AreSettings(s) && n < NUM_HUFF_TBLS && HuffOf(s.huffs, ac, n).Some?
      ensures IsSpec(HuffOf(s.huffs, ac, n).value)
    {
    }

    method WriteDht(t: HuffSpec, ac: bool, n: nat)
      requires n < NUM_HUFF_TBLS && IsSpec(t)
      modifies `out
      ensures out == old(out) + (Marker(M_DHT) + DhtPayload(t, ac, n))
    {
      hide Total;
      EmitMarker(M_DHT);
      var length: nat := 0;
      assert t.bits[..0] == [];
      assert Total([]) == 0 by { TotalMore([], 0); }
      for i := 0 to 16
        invariant length == Total(t.bits[..i]) && out == old(out) + Marker(M_DHT)
      {
        TotalMore(t.bits, i);
        length := length + t.bits[i];
      }
      assert t.bits[..16] == t.bits;
      Emit2Bytes(length + 2 + 1 + 16);
      ghost var before := out;
      assert before == old(out) + Marker(M_DHT) + TwoBytes(|t.vals| + 2 + 1 + 16);
      EmitByte(n + (if ac then 16 else 0));
      ghost var head := out;
      for i := 0 to 16
        invariant out == head + t.bits[..i]
      {
        EmitByte(t.bits[i]);
      }
      ghost var counts := out;
      for i := 0 to length
        invariant out == counts + t.vals[..i]
      {
        EmitByte(t.vals[i]);
      }
      assert t.vals[..length] == t.vals && t.bits[..16] == t.bits;
      assert out == head + t.bits + t.vals;
    }

    /** emit_dri. */
    method EmitDri(restartInterval: nat)
      requires Valid() && restartInterval < 0x1_0000
      modifies `out, `lastRestartInterval, `reader
      ensures Valid() && lastRestartInterval == restartInterval &&
              reader == old(reader).(restartInterval := restartInterval)
      ensures old(out) <= out && Leads(os, Since(|old(out)|), old(reader), reader)
    {
      hide AreOrders, AreSettings, NaturalOrder, Leads, Steps, SameQuant;
      OrderOk();
      EmitMarker(M_DRI);
      Emit2Bytes(4);
      Emit2Bytes(restartInterval);
      ghost var st := DriSteps(os, s, FlagsNow(), reader, restartInterval);
      SegmentLeads(os, M_DRI, TwoBytes(4) + TwoBytes(restartInterval), reader, st);
      assert Since(|old(out)|) == Marker(M_DRI) + (TwoBytes(4) + TwoBytes(restartInterval));
      reader := st;
      lastRestartInterval := restartInterval;
    }

    /** emit_dac: the conditioning the scan uses, in one marker. */
    method EmitDac(sc: ScanSpec)
      requires Valid() && IsScanSpec(s, sc)
      modifies `out, `reader
      ensures Valid() && reader == old(reader).(cond := reader.cond)
      ensures old(out) <= out && Leads(os, Since(|old(out)|), old(reader), reader)
      ensures forall j :: 0 <= j < |sc.comps| ==> CondKnown(s, sc, reader, sc.comps[j])
    {
      hide AreOrders, AreSettings, NaturalOrder, Leads, Steps, DacBytes, Entry, InUse, Knows, ConditioningOk,
           TwoBytes, Marker;
      OrderOk();
      CondOk();
      var dcInUse, acInUse := TablesInUse(sc);
      var length := CountInUse(dcInUse, acInUse);
      ghost var entries := InUse(dcInUse, acInUse, 0);
      if length > 0 {
        WriteDac(dcInUse, acInUse, length);
        ghost var st := DacSteps(os, s, FlagsNow(), reader, entries);
        SegmentLeads(os, M_DAC, TwoBytes(2 * |entries| + 2) + DacBytes(s.cond, entries), reader, st);
        assert Since(|old(out)|) == Marker(M_DAC) + (TwoBytes(2 * |entries| + 2) + DacBytes(s.cond, entries));
        reader := st;
      } else {
        assert Since(|out|) == [];
        LeadsNowhere(os, reader);
      }
      OrderOk();
      forall j | 0 <= j < |sc.comps|
        ensures CondKnown(s, sc, reader, sc.comps[j])
      {
        UsedInUse(dcInUse, acInUse, 0, s.comps[sc.comps[j]].dcTbl);
        UsedInUse(dcInUse, acInUse, 0, s.comps[sc.comps[j]].acTbl);
      }
    }

    method WriteDac(dcInUse: seq<bool>, acInUse: seq<bool>, length: nat)
      requires |dcInUse| == |acInUse| == NUM_ARITH_TBLS && ConditioningOk(s.cond) &&
               length == |InUse(dcInUse, acInUse, 0)|
      modifies `out
      ensures out == old(out) + (Marker(M_DAC) + (TwoBytes(2 * length + 2) + DacBytes(s.cond, InUse(dcInUse, acInUse,
              0))))
    {
      hide AreOrders, AreSettings, Knows, DacBytes, InUse, TwoBytes, Marker;
      EmitMarker(M_DAC);
      Emit2Bytes(length * 2 + 2);
      ghost var head := out;
      for i := 0 to NUM_ARITH_TBLS
        invariant out + DacBytes(s.cond, InUse(dcInUse, acInUse, i)) == head + DacBytes(s.cond, InUse(dcInUse,
                  acInUse, 0))
      {
        ghost var before := out;
        InUseBytes(s.cond, dcInUse, acInUse, i);
        if dcInUse[i] {
          EmitByte(i);
          EmitByte((s.cond.dcL[i] + s.cond.dcU[i] * 16) % 256);
        }
        if acInUse[i] {
          EmitByte(i + 0x10);
          EmitByte(s.cond.acK[i] % 256);
        }
        ghost var rest := DacBytes(s.cond, InUse(dcInUse, acInUse, i + 1));
        assert out + rest == before + DacBytes(s.cond, InUse(dcInUse, acInUse, i));
      }
      NoneInUse(s.cond, dcInUse, acInUse);
      assert out + [] == out;
    }

    lemma CondOk()
      requires Valid()
      ensures ConditioningOk(s.cond) && forall c :: 0 <= c < |s.comps| ==>
              s.comps[c].dcTbl < NUM_ARITH_TBLS && s.comps[c].acTbl < NUM_ARITH_TBLS
    {
    }

    method TablesInUse(sc: ScanSpec) returns (dcInUse: seq<bool>, acInUse: seq<bool>)
      requires InFrame(sc, s.comps) && forall c :: 0 <= c < |s.comps| ==>
               s.comps[c].dcTbl < NUM_ARITH_TBLS && s.comps[c].acTbl < NUM_ARITH_TBLS
      ensures |dcInUse| == |acInUse| == NUM_ARITH_TBLS
      ensures forall j :: 0 <= j < |sc.comps| ==> (sc.ss == 0 && sc.ah == 0 ==> dcInUse[s.comps[sc.comps[j]].dcTbl])
                                                  && (sc.se != 0 ==> acInUse[s.comps[sc.comps[j]].acTbl])
    {
      dcInUse, acInUse := seq(NUM_ARITH_TBLS, _ => false), seq(NUM_ARITH_TBLS, _ => false);
      for i := 0 to |sc.comps|
        invariant |dcInUse| == |acInUse| == NUM_ARITH_TBLS
        invariant forall j :: 0 <= j < i ==> (sc.ss == 0 && sc.ah == 0 ==> dcInUse[s.comps[sc.comps[j]].dcTbl])
                                             && (sc.se != 0 ==> acInUse[s.comps[sc.comps[j]].acTbl])
      {
        var compptr := s.comps[sc.comps[i]];
        if sc.ss == 0 && sc.ah == 0 {
          dcInUse := dcInUse[compptr.dcTbl := true];
        }
        if sc.se != 0 {
          acInUse := acInUse[compptr.acTbl := true];
        }
      }
    }

    method CountInUse(dcInUse: seq<bool>, acInUse: seq<bool>) returns (length: nat)
      requires |dcInUse| == |acInUse| == NUM_ARITH_TBLS
      ensures length == |InUse(dcInUse, acInUse, 0)| <= 32
    {
      length := 0;
      for i := 0 to NUM_ARITH_TBLS
        invariant length + |InUse(dcInUse, acInUse, i)| == |InUse(dcInUse, acInUse, 0)| && length <= 2 * i
      {
        length := length + (if dcInUse[i] then 1 else 0) + (if acInUse[i] then 1 else 0);
      }
    }

    /** write_marker_header and write_marker_byte: a marker of the application's own, which readers pass over.
        One longer than 65533 bytes is an error. */
    method WriteMarker(code: byte, data: seq<byte>) returns (ok: bool)
      requires Valid() && IsSkipped(code)
      modifies `out
      ensures ok <==> |data| <= 65533
      ensures ok ==> Valid() && old(out) <= out && Leads(os, Since(|old(out)|), reader, reader)
    {
      hide AreOrders, AreSettings, NaturalOrder, Leads, Steps, Knows;
      OrderOk();
      if |data| > 65533 {
        return false;
      }
      EmitMarker(code);
      Emit2Bytes(|data| + 2);
      ghost var head := out;
      for i := 0 to |data|
        invariant out == head + data[..i]
      {
        EmitByte(data[i]);
      }
      assert data[..|data|] == data;
      SkipSteps(os, reader, code, data);
      SegmentLeads(os, code, TwoBytes(|data| + 2) + data, reader, reader);
      assert Since(|old(out)|) == Marker(code) + (TwoBytes(|data| + 2) + data);
      ok := true;
    }

    /** The bytes of a scan follow its header. */
    method WriteData(data: seq<byte>)
      requires Valid()
      modifies `out
      ensures Valid() && out == old(out) + data
    {
      out := out + data;
    }

    /** write_file_trailer. */
    method WriteTrailer()
      requires Valid()
      modifies `out
      ensures Valid() && out == old(out) + [0xFF, M_EOI]
    {
      EmitMarker(M_EOI);
    }

    // ----- frame and scan headers

    /** What is written since there were n bytes goes on from what was written up to m. */
    lemma Continue(n: nat, m: nat, origin: State, mid: State)
      requires n <= m <= |out| && Leads(os, out[n..m], origin, mid) && Leads(os, out[m..], mid, reader)
      ensures Leads(os, Since(n), origin, reader)
    {
      hide Leads;
      LeadsOn(os, out[n..m], out[m..], origin, mid, reader);
      assert out[n..m] + out[m..] == out[n..];
    }

    /** emit_sof. A side longer than 65535 is an error. */
    method EmitSof(baseline: bool) returns (ok: bool)
      requires Valid() && !reader.sawSof && (baseline ==> !s.arith && !s.progressive)
      modifies `out, `reader
      ensures ok <==> s.height <= 65535 && s.width <= 65535
      ensures ok ==> Valid() && old(out) <= out && Leads(os, Since(|old(out)|), old(reader), reader)
      ensures ok ==> reader == old(reader).(frame := Frame(baseline, s.progressive, s.arith, s.precision, s.height, s.width, |s.comps|),
                                            comps := AllDescribed(s.comps, |s.comps|), sawSof := true)
    {
      hide AreOrders, NaturalOrder, Leads, Steps, SameQuant, SofPayload, AllDescribed, Knows, Total, SofHead,
           SofCompBytes, AreSettings;
      OrderOk();
      EmitMarker(SofCode(s, baseline));
      if s.height > 65535 || s.width > 65535 {
        return false;
      }
      WriteSofHead();
      WriteComps();
      ghost var payload := SofPayload(s.precision, s.height, s.width, s.comps);
      SofPayloadIs(s.precision, s.height, s.width, s.comps);
      ghost var st := SofSteps(os, s, FlagsNow(), reader, baseline);
      SegmentLeads(os, SofCode(s, baseline), payload, reader, st);
      assert Since(|old(out)|) == Marker(SofCode(s, baseline)) + payload;
      reader := st;
      ok := true;
    }

    method WriteSofHead()
      modifies `out
      ensures out == old(out) + SofHead(s.precision, s.height, s.width, |s.comps|)
    {
      Emit2Bytes(3 * |s.comps| + 2 + 5 + 1);
      EmitByte(s.precision);
      Emit2Bytes(s.height);
      Emit2Bytes(s.width);
      EmitByte(|s.comps| % 256);
    }

    method WriteComps()
      modifies `out
      ensures out == old(out) + SofCompBytes(s.comps, |s.comps|)
    {
      hide SofCompBytes;
      NoCompBytes();
      for ci := 0 to |s.comps|
        invariant out == old(out) + SofCompBytes(s.comps, ci)
      {
        var compptr := s.comps[ci];
        MoreCompBytes(ci);
        EmitByte(compptr.id);
        EmitByte((compptr.hSamp * 16 + compptr.vSamp) % 256);
        EmitByte(compptr.quantTbl % 256);
      }
    }

    lemma NoCompBytes()
      ensures SofCompBytes(s.comps, 0) == []
    {
    }

    lemma MoreCompBytes(n: nat)
      requires n < |s.comps|
      ensures SofCompBytes(s.comps, n + 1)
              == SofCompBytes(s.comps, n) + [s.comps[n].id, (s.comps[n].hSamp * 16 + s.comps[n].vSamp) % 256,
                  s.comps[n].quantTbl % 256]
    {
    }

    /** emit_sos. */
    method EmitSos(sc: ScanSpec)
      requires Valid() && IsScanSpec(s, sc) && HasFrame(s, reader)
      modifies `out, `reader
      ensures Valid() && old(out) <= out && Ends(os, Since(|old(out)|), old(reader), reader)
      ensures reader == old(reader).(comps := Selected(old(reader).comps, s.comps, sc, 0), scan := sc,
              nextRestartNum := 0,
                                     inputScanNumber := old(reader).inputScanNumber + (if sc.comps != [] then 1 else 0))
    {
      hide AreOrders, NaturalOrder, Ends, Steps, SameQuant, SosPayload, Selected, Knows, Total, SosHead, SosTail,
           SosCompBytes, AreSettings;
      OrderOk();
      EmitMarker(M_SOS);
      WriteSosHead(|sc.comps|);
      WriteSelectors(sc);
      WriteSosTail(sc);
      ghost var payload := SosPayload(s.comps, sc);
      SosPayloadIs(s.comps, sc);
      ghost var st := SosSteps(os, s, FlagsNow(), reader, sc);
      ScanEnds(os, payload, reader, st);
      assert Since(|old(out)|) == Marker(M_SOS) + payload;
      reader := st;
    }

    method WriteSosHead(n: nat)
      modifies `out
      ensures out == old(out) + SosHead(n)
    {
      Emit2Bytes(2 * n + 2 + 1 + 3);
      EmitByte(n % 256);
    }

    method WriteSosTail(sc: ScanSpec)
      modifies `out
      ensures out == old(out) + SosTail(sc)
    {
      EmitByte(sc.ss % 256);
      EmitByte(sc.se % 256);
      EmitByte((sc.ah * 16 + sc.al) % 256);
    }

    method WriteSelectors(sc: ScanSpec)
      requires InFrame(sc, s.comps)
      modifies `out
      ensures out == old(out) + SosCompBytes(s.comps, sc, 0)
    {
      hide SosCompBytes;
      ghost var head := out;
      for i := 0 to |sc.comps|
        invariant out + SosCompBytes(s.comps, sc, i) == head + SosCompBytes(s.comps, sc, 0)
      {
        ghost var before, rest := out, SosCompBytes(s.comps, sc, i + 1);
        var compptr := s.comps[sc.comps[i]];
        MoreSelectors(sc, i);
        EmitByte(compptr.id);
        var td := if sc.ss == 0 && sc.ah == 0 then compptr.dcTbl else 0;
        var ta := if sc.se != 0 then compptr.acTbl else 0;
        EmitByte((td * 16 + ta) % 256);
        assert out + rest == before + SosCompBytes(s.comps, sc, i);
      }
      NoSelectors(sc);
      assert out + [] == out;
    }

    lemma NoSelectors(sc: ScanSpec)
      requires InFrame(sc, s.comps)
      ensures SosCompBytes(s.comps, sc, |sc.comps|) == []
    {
    }

    lemma MoreSelectors(sc: ScanSpec, i: nat)
      requires InFrame(sc, s.comps) && i < |sc.comps|
      ensures SosCompBytes(s.comps, sc, i)
              == [s.comps[sc.comps[i]].id,
                  ((if sc.ss == 0 && sc.ah == 0 then s.comps[sc.comps[i]].dcTbl else 0) * 16
                   + (if sc.se != 0 then s.comps[sc.comps[i]].acTbl else 0)) % 256]
                 + SosCompBytes(s.comps, sc, i + 1)
    {
    }

    /** A DQT for every component, tables already sent left out. */
    method EmitAllDqt() returns (ok: bool, anyWide: bool)
      requires Valid()
      modifies `out, `sentQuant, `reader
      ensures ok <==> AllQuants(s)
      ensures ok ==> Valid() && old(out) <= out && Leads(os, Since(|old(out)|), old(reader), reader)
      ensures ok ==> reader == old(reader).(quants := reader.quants) && anyWide == SomeWide(os, s)
      ensures ok ==> (forall c :: 0 <= c < |s.comps| ==> QuantKnown(os, s, reader, c))
    {
      hide AreOrders, NaturalOrder, Leads, SameQuant, Knows, Total, AreSettings, IsWide, IsOrderOf;
      OrderOk();
      CompsOk();
      ghost var n0, origin := |out|, reader;
      assert Since(n0) == [];
      LeadsNowhere(os, reader);
      anyWide := false;
      for ci := 0 to |s.comps|
        invariant Valid() && old(out) <= out && Leads(os, Since(n0), origin, reader)
        invariant reader == origin.(quants := reader.quants)
        invariant |sentQuant| == NUM_QUANT_TBLS
        invariant forall c :: 0 <= c < ci ==> s.quants[s.comps[c].quantTbl].Some? && sentQuant[s.comps[c].quantTbl]
        invariant anyWide <==> exists c :: 0 <= c < ci && WideComp(os, s, c)
      {
        ghost var m, mid := |out|, reader;
        ghost var a := Since(n0);
        var prec := EmitDqt(s.comps[ci].quantTbl);
        if prec.None? {
          return false, false;
        }
        OrderOk();
        assert out[n0..m] == a;
        Continue(n0, m, origin, mid);
        assert WideComp(os, s, ci) <==> prec.value > 0;
        anyWide := anyWide || prec.value > 0;
      }
      forall c | 0 <= c < |s.comps|
        ensures QuantKnown(os, s, reader, c)
      {
        SentIsKnown(c);
      }
      ok := true;
    }

    lemma CompsOk()
      requires Valid()
      ensures forall c :: 0 <= c < |s.comps| ==>
                s.comps[c].quantTbl < NUM_QUANT_TBLS && s.comps[c].dcTbl < 16 && s.comps[c].acTbl < 16
                && (!s.arith ==> s.comps[c].dcTbl < NUM_HUFF_TBLS && s.comps[c].acTbl < NUM_HUFF_TBLS)
    {
    }

    lemma SentIsKnown(c: nat)
      requires Valid() && c < |s.comps| && s.comps[c].quantTbl < NUM_QUANT_TBLS && |sentQuant| == NUM_QUANT_TBLS
      requires sentQuant[s.comps[c].quantTbl]
      ensures QuantKnown(os, s, reader, c)
    {
    }

    /** write_frame_header. */
    method WriteFrameHeader() returns (ok: bool)
      requires Valid() && !reader.sawSof
      modifies `out, `sentQuant, `reader
      ensures ok <==> AllQuants(s) && s.height <= 65535 && s.width <= 65535
      ensures ok ==> Valid() && old(out) <= out && HasFrame(s, reader) && (forall c :: 0 <= c < |s.comps| ==>
              QuantKnown(os, s, reader, c))
      ensures ok ==> (if s.progressive && s.blockSize != 8 then Ends(os, Since(|old(out)|), old(reader), reader)
                      else Leads(os, Since(|old(out)|), old(reader), reader))
      ensures ok ==> (reader.frame == Frame(IsBaseline(os, s), s.progressive, s.arith, s.precision, s.height, s.width, |s.comps|)
                      && reader.comps == AllDescribed(s.comps, |s.comps|))
    {
      hide AreOrders, NaturalOrder, Leads, Ends, SameQuant, Knows, Total, AreSettings, QuantKnown, AllDescribed,
           SomeWide;
      OrderOk();
      CompsOk();
      ghost var n0, origin := |out|, reader;
      var anyWide;
      ok, anyWide := EmitAllDqt();
      if !ok {
        return;
      }
      var isBaseline := false;
      if !(s.arith || s.progressive || s.precision != 8 || s.blockSize != 8) {
        isBaseline := true;
        for ci := 0 to |s.comps|
          invariant isBaseline <==> forall c :: 0 <= c < ci ==> s.comps[c].dcTbl <= 1 && s.comps[c].acTbl <= 1
          modifies {}
        {
          if s.comps[ci].dcTbl > 1 || s.comps[ci].acTbl > 1 {
            isBaseline := false;
          }
        }
        if anyWide && isBaseline {
          isBaseline := false;
        }
      }
      ghost var m, mid, a := |out|, reader, Since(n0);
      ok := EmitSof(isBaseline);
      if !ok {
        return;
      }
      assert out[n0..m] == a;
      Continue(n0, m, origin, mid);
      FrameRead(s, reader);
      if s.progressive && s.blockSize != 8 {
        ghost var k, at, b := |out|, reader, Since(n0);
        EmitPseudoSos();
        assert Since(n0) == b + Since(k) && out[n0..k] == b;
        EndsOn(os, b, Since(k), origin, at, reader);
        AllDescribedSelected(s, at, reader.scan);
      }
      forall c | 0 <= c < |s.comps|
        ensures QuantKnown(os, s, reader, c)
      {
        QuantStays(os, s, mid, reader, c);
      }
    }

    /** emit_pseudo_sos: tells the block size of a progressive image. */
    method EmitPseudoSos()
      requires Valid() && HasFrame(s, reader) && s.progressive
      modifies `out, `reader
      ensures Valid() && old(out) <= out && Ends(os, Since(|old(out)|), old(reader), reader) && HasFrame(s, reader)
      ensures reader == old(reader).(scan := ScanSpec([], 0, (s.blockSize * s.blockSize - 1) % 256, 0, 0),
              nextRestartNum := 0)
    {
      hide AreOrders, NaturalOrder, Ends, Knows, SameQuant, Total, DistinctIds, SameIds;
      var se := BlockSe();
      EmitSos(ScanSpec([], 0, se, 0, 0));
    }

    function BlockSe(): (r: nat)
      requires AreSettings(s)
      ensures r == (s.blockSize * s.blockSize - 1) % 256 < 256
    {
      (s.blockSize * s.blockSize - 1) % 256
    }

    /** A DHT for every table the scan uses, tables already sent left out. */
    method EmitAllDht(sc: ScanSpec) returns (ok: bool)
      requires Valid() && IsScanSpec(s, sc) && !s.arith
      modifies `out, `sentDc, `sentAc, `reader
      ensures ok <==> AllHuffs(s, sc)
      ensures ok ==> Valid() && old(out) <= out && Leads(os, Since(|old(out)|), old(reader), reader)
      ensures ok ==> reader == old(reader).(huffs := reader.huffs) && |sentDc| == |sentAc| == NUM_HUFF_TBLS
      ensures ok ==> (forall j :: 0 <= j < |sc.comps| ==> HuffsSent(sc, sc.comps[j]))
    {
      hide AreOrders, NaturalOrder, Leads, SameQuant, Knows, Total, AreSettings;
      OrderOk();
      CompsOk();
      ghost var n0, origin := |out|, reader;
      assert Since(n0) == [];
      LeadsNowhere(os, reader);
      for i := 0 to |sc.comps|
        invariant Valid() && old(out) <= out && Leads(os, Since(n0), origin, reader)
        invariant reader == origin.(huffs := reader.huffs) && |sentDc| == |sentAc| == NUM_HUFF_TBLS
        invariant forall j :: 0 <= j < i ==> HuffsFor(s, sc, sc.comps[j]) && HuffsSent(sc, sc.comps[j])
      {
        var compptr := s.comps[sc.comps[i]];
        if sc.ss == 0 && sc.ah == 0 {
          ok := EmitOneDht(compptr.dcTbl, false, n0, origin);
          if !ok {
            assert !HuffsFor(s, sc, sc.comps[i]);
            return;
          }
        }
        if sc.se != 0 {
          ok := EmitOneDht(compptr.acTbl, true, n0, origin);
          if !ok {
            assert !HuffsFor(s, sc, sc.comps[i]);
            return;
          }
        }
      }
      ok := true;
    }

    ghost predicate HuffsSent(sc: ScanSpec, c: nat)
      reads `sentDc, `sentAc
    {
      && c < |s.comps|
      && (sc.ss == 0 && sc.ah == 0 ==> s.comps[c].dcTbl < |sentDc| && sentDc[s.comps[c].dcTbl])
      && (sc.se != 0 ==> s.comps[c].acTbl < |sentAc| && sentAc[s.comps[c].acTbl])
    }

    /** The same, as one more of the segments since there were n0 bytes. */
    method EmitOneDht(n: nat, ac: bool, ghost n0: nat, ghost origin: State) returns (ok: bool)
      requires Valid() && n < NUM_HUFF_TBLS && AreHuffs(s.huffs) && n0 <= |out| && Leads(os, Since(n0), origin, reader)
      requires |sentDc| == |sentAc| == NUM_HUFF_TBLS && reader == origin.(huffs := reader.huffs)
      modifies `out, `sentDc, `sentAc, `reader
      ensures ok <==> HuffOf(s.huffs, ac, n).Some?
      ensures ok ==> Valid() && old(out) <= out && Leads(os, Since(n0), origin, reader) && reader == origin.(huffs := reader.huffs)
      ensures ok ==> (sentDc == if ac then old(sentDc) else old(sentDc)[n := true])
      ensures ok ==> (sentAc == if ac then old(sentAc)[n := true] else old(sentAc))
    {
      hide AreOrders, NaturalOrder, Leads, SameQuant, Knows, Total, AreSettings;
      ghost var m, mid, a := |out|, reader, Since(n0);
      KnowsFlags();
      ok := EmitDht(n, ac);
      if ok {
        assert out[n0..m] == a;
        Continue(n0, m, origin, mid);
      }
    }

    lemma KnowsFlags()
      requires Valid()
      ensures AreFlags(FlagsNow())
    {
    }

    /** What comes before SOS: tables not yet sent, and DRI if the interval changed. */
    method WriteScanTables(sc: ScanSpec, restartInterval: nat) returns (ok: bool)
      requires Valid() && IsScanSpec(s, sc) && restartInterval < 0x1_0000
      modifies `out, `sentDc, `sentAc, `lastRestartInterval, `reader
      ensures ok <==> s.arith || AllHuffs(s, sc)
      ensures ok ==> Valid() && old(out) <= out && Leads(os, Since(|old(out)|), old(reader), reader)
      ensures ok ==> reader == old(reader).(huffs := reader.huffs, cond := reader.cond, restartInterval := restartInterval)
      ensures ok ==> (forall j :: 0 <= j < |sc.comps| ==>
              if s.arith then CondKnown(s, sc, reader, sc.comps[j]) else HuffsSent(sc, sc.comps[j]))
    {
      hide AreOrders, NaturalOrder, Leads, SameQuant, Knows, Total, AreSettings, CondKnown, AllHuffs,
           MarkerWriter.HuffsSent;
      OrderOk();
      ghost var n0, origin := |out|, reader;
      ok := true;
      if s.arith {
        EmitDac(sc);
      } else {
        ok := EmitAllDht(sc);
        if !ok {
          return;
        }
      }
      ghost var m, mid, a := |out|, reader, Since(n0);
      SameRestart();
      if restartInterval != lastRestartInterval {
        EmitDri(restartInterval);
      } else {
        assert Since(m) == [];
        OrderOk();
        LeadsNowhere(os, reader);
      }
      assert out[n0..m] == a;
      Continue(n0, m, origin, mid);
      forall j | 0 <= j < |sc.comps| && s.arith
        ensures CondKnown(s, sc, reader, sc.comps[j])
      {
        CondStays(s, sc, mid, reader, sc.comps[j]);
      }
    }

    /** write_scan_header: the tables, and SOS. */
    method WriteScanHeader(sc: ScanSpec, restartInterval: nat) returns (ok: bool)
      requires Valid() && IsScanSpec(s, sc) && HasFrame(s, reader) && restartInterval < 0x1_0000
      modifies `out, `sentDc, `sentAc, `lastRestartInterval, `reader
      ensures ok <==> s.arith || AllHuffs(s, sc)
      ensures ok ==> Valid() && old(out) <= out && Ends(os, Since(|old(out)|), old(reader), reader) && HasFrame(s, reader)
      ensures ok ==> reader.scan == sc && reader.restartInterval == restartInterval && reader.quants == old(reader).quants
      ensures ok ==> reader.frame == old(reader).frame
      ensures ok ==> (forall j :: 0 <= j < |sc.comps| ==> CompKnown(s, sc, reader, sc.comps[j]))
    {
      hide AreOrders, NaturalOrder, Leads, Ends, SameQuant, Knows, Total, AreSettings, CondKnown, HasFrame, Selected,
           AllHuffs,
           CompKnown, MarkerWriter.HuffsSent, Alike;
      ghost var n0, origin := |out|, reader;
      ok := WriteScanTables(sc, restartInterval);
      if !ok {
        return;
      }
      ghost var k, at, b := |out|, reader, Since(n0);
      FrameStays(s, origin, reader);
      EmitSos(sc);
      assert Since(n0) == b + Since(k) && out[n0..k] == b;
      EndsOn(os, b, Since(k), origin, at, reader);
      FrameSelected(s, at, sc);
      FrameStays(s, at.(comps := reader.comps), reader);
      forall j | 0 <= j < |sc.comps|
        ensures CompKnown(s, sc, reader, sc.comps[j])
      {
        ScanKnown(sc, at, j);
      }
    }

    /** After SOS the reader has what the scan needs. */
    lemma ScanKnown(sc: ScanSpec, at: State, j: nat)
      requires Valid() && InFrame(sc, s.comps) && HasFrame(s, at) && j < |sc.comps| && reader.cond == at.cond
      requires |at.comps| == |s.comps| && reader.comps == Selected(at.comps, s.comps, sc, 0)
      requires if s.arith then CondKnown(s, sc, at, sc.comps[j]) else HuffsSent(sc, sc.comps[j])
      ensures CompKnown(s, sc, reader, sc.comps[j])
    {
      hide AreOrders, NaturalOrder, SameQuant, Knows, Total, AreSettings, CondKnown, HasFrame, Selected;
      OrderOk();
      CompsOk();
      SelectedAt(at.comps, s.comps, sc, 0, j);
      if s.arith {
        CondStays(s, sc, at, reader, sc.comps[j]);
      } else {
        KnownHuffs(sc, sc.comps[j]);
      }
    }

    lemma SameRestart()
      requires Valid()
      ensures reader.restartInterval == lastRestartInterval
    {
    }

    lemma KnownHuffs(sc: ScanSpec, c: nat)
      requires Valid() && c < |s.comps| && s.comps[c].dcTbl < NUM_HUFF_TBLS && s.comps[c].acTbl < NUM_HUFF_TBLS
      requires |sentDc| == |sentAc| == NUM_HUFF_TBLS && AreHuffs(s.huffs) && AreHuffs(reader.huffs)
      ensures sentDc[s.comps[c].dcTbl] ==> s.huffs.dc[s.comps[c].dcTbl].Some?
      ensures sentAc[s.comps[c].acTbl] ==> s.huffs.ac[s.comps[c].acTbl].Some?
      ensures sentDc[s.comps[c].dcTbl] ==> reader.huffs.dc[s.comps[c].dcTbl] == s.huffs.dc[s.comps[c].dcTbl]
      ensures sentAc[s.comps[c].acTbl] ==> reader.huffs.ac[s.comps[c].acTbl] == s.huffs.ac[s.comps[c].acTbl]
    {
    }
  }

  lemma TotalMore(bits: seq<byte>, i: nat)
    ensures Total([]) == 0
    ensures i < |bits| ==> Total(bits[..i + 1]) == Total(bits[..i]) + bits[i]
  {
    if i < |bits| {
      assert bits[..i + 1][..i] == bits[..i];
    }
  }

  /** The entries in use from table i on, DC before AC. */
  function InUse(dcInUse: seq<bool>, acInUse: seq<bool>, i: nat): (r: seq<nat>)
    requires |dcInUse| == |acInUse| == NUM_ARITH_TBLS && i <= NUM_ARITH_TBLS
    ensures forall k :: 0 <= k < |r| ==> r[k] < 2 * NUM_ARITH_TBLS
    decreases NUM_ARITH_TBLS - i
  {
    if i == NUM_ARITH_TBLS then []
    else (if dcInUse[i] then [i] else []) + (if acInUse[i] then [i + NUM_ARITH_TBLS] else []) + InUse(dcInUse,
        acInUse, i + 1)
  }

  lemma {:induction false} UsedInUse(dcInUse: seq<bool>, acInUse: seq<bool>, i: nat, n: nat)
    requires |dcInUse| == |acInUse| == NUM_ARITH_TBLS && i <= n < NUM_ARITH_TBLS
    ensures dcInUse[n] ==> n in InUse(dcInUse, acInUse, i)
    ensures acInUse[n] ==> n + NUM_ARITH_TBLS in InUse(dcInUse, acInUse, i)
    decreases n - i
  {
    if i < n {
      UsedInUse(dcInUse, acInUse, i + 1, n);
    }
  }

  lemma NoneInUse(c: Conditioning, dcInUse: seq<bool>, acInUse: seq<bool>)
    requires |dcInUse| == |acInUse| == NUM_ARITH_TBLS && IsConditioning(c)
    ensures DacBytes(c, InUse(dcInUse, acInUse, NUM_ARITH_TBLS)) == []
  {
  }

  lemma {:induction false} DacBytesAppend(c: Conditioning, a: seq<nat>, b: seq<nat>)
    requires IsConditioning(c) && (forall k :: 0 <= k < |a| ==> a[k] < 2 * NUM_ARITH_TBLS)
    requires forall k :: 0 <= k < |b| ==> b[k] < 2 * NUM_ARITH_TBLS
    ensures DacBytes(c, a + b) == DacBytes(c, a) + DacBytes(c, b)
    decreases |a|
  {
    if a == [] {
      assert a + b == b;
    } else {
      assert (a + b)[1..] == a[1..] + b;
      DacBytesAppend(c, a[1..], b);
    }
  }

  lemma OneEntry(c: Conditioning, e: nat, used: bool)
    requires IsConditioning(c) && e < 2 * NUM_ARITH_TBLS
    ensures DacBytes(c, if used then [e] else []) == if used then [e, DacByte(c, e)] else []
  {
    assert used ==> DacBytes(c, [e]) == [e, DacByte(c, e)] + DacBytes(c, [e][1..]);
  }

  lemma InUseBytes(c: Conditioning, dcInUse: seq<bool>, acInUse: seq<bool>, i: nat)
    requires |dcInUse| == |acInUse| == NUM_ARITH_TBLS && i < NUM_ARITH_TBLS && IsConditioning(c)
    ensures DacBytes(c, InUse(dcInUse, acInUse, i))
            == (if dcInUse[i] then [i, (c.dcL[i] + c.dcU[i] * 16) % 256] else [])
               + (if acInUse[i] then [i + 16, c.acK[i] % 256] else [])
               + DacBytes(c, InUse(dcInUse, acInUse, i + 1))
  {
    hide DacBytes;
    var rest := InUse(dcInUse, acInUse, i + 1);
    var dc: seq<nat>, ac: seq<nat> := if dcInUse[i] then [i] else [], if acInUse[i] then [i + NUM_ARITH_TBLS] else [];
    DacBytesAppend(c, dc + ac, rest);
    DacBytesAppend(c, dc, ac);
    OneEntry(c, i, dcInUse[i]);
    OneEntry(c, i + NUM_ARITH_TBLS, acInUse[i]);
  }

  /** The reader has the conditioning the scan uses for component c. */
  ghost predicate CondKnown(s: Settings, sc: ScanSpec, st: State, c: nat) {
    && c < |s.comps| && s.comps[c].dcTbl < NUM_ARITH_TBLS && s.comps[c].acTbl < NUM_ARITH_TBLS
    && IsConditioning(s.cond) && IsConditioning(st.cond)
    && (sc.ss == 0 && sc.ah == 0 ==> Entry(st.cond, s.comps[c].dcTbl) == Entry(s.cond, s.comps[c].dcTbl))
    && (sc.se != 0 ==> Entry(st.cond, s.comps[c].acTbl + NUM_ARITH_TBLS) == Entry(s.cond, s.comps[c].acTbl + NUM_ARITH_TBLS))
  }

  function AfterSoi(st: State): State {
    st.(sawSoi := true, cond := DefaultConditioning(), restartInterval := 0)
  }

  lemma SoiLeads(os: Orders, st: State)
    requires AreOrders(os) && IsState(st) && !st.sawSoi
    ensures Leads(os, [0xFF, M_SOI], st, AfterSoi(st))
  {
    hide AreOrders, Has;
    var bs := [0xFF, M_SOI];
    forall d, at: nat | Has(d, at, bs) && at + |bs| <= |d|
      ensures Run(os, d, at, st) == Run(os, d, at + |bs|, AfterSoi(st))
    {
      ByteAt(d, at, bs, 0);
      ByteAt(d, at, bs, 1);
    }
  }

  // ----- what the headers say

  ghost predicate AllQuants(s: Settings) {
    |s.quants| == NUM_QUANT_TBLS
    && forall c :: 0 <= c < |s.comps| ==> s.comps[c].quantTbl < NUM_QUANT_TBLS && s.quants[s.comps[c].quantTbl].Some?
  }

  /** The reader has the quantization table of component c, as far as blocks use it. */
  ghost predicate QuantKnown(os: Orders, s: Settings, st: State, c: nat) {
    && c < |s.comps| && s.comps[c].quantTbl < NUM_QUANT_TBLS && |s.quants| == |st.quants| == NUM_QUANT_TBLS
    && s.quants[s.comps[c].quantTbl].Some? && st.quants[s.comps[c].quantTbl].Some?
    && SameQuant(NaturalOrder(os, s), Count(s), s.quants[s.comps[c].quantTbl].value,
        st.quants[s.comps[c].quantTbl].value)
  }

  lemma QuantStays(os: Orders, s: Settings, st: State, st': State, c: nat)
    requires st'.quants == st.quants && QuantKnown(os, s, st, c)
    ensures QuantKnown(os, s, st', c)
  {
  }

  /** SOS without components changes none. */
  lemma AllDescribedSelected(s: Settings, st: State, sc: ScanSpec)
    requires sc.comps == [] && |st.comps| == |s.comps|
    ensures Selected(st.comps, s.comps, sc, 0) == st.comps
  {
  }

  ghost predicate WideComp(os: Orders, s: Settings, c: nat) {
    && c < |s.comps| && s.comps[c].quantTbl < |s.quants| && s.quants[s.comps[c].quantTbl].Some?
    && IsOrderOf(NaturalOrder(os, s), Count(s)) &&
        IsWide(s.quants[s.comps[c].quantTbl].value, NaturalOrder(os, s), Count(s))
  }

  ghost predicate SomeWide(os: Orders, s: Settings) {
    exists c :: 0 <= c < |s.comps| && WideComp(os, s, c)
  }

  /** What a baseline decoder can take. */
  ghost predicate IsBaseline(os: Orders, s: Settings) {
    && !s.arith && !s.progressive && s.precision == 8 && s.blockSize == 8 && !SomeWide(os, s)
    && forall c :: 0 <= c < |s.comps| ==> s.comps[c].dcTbl <= 1 && s.comps[c].acTbl <= 1
  }

  lemma FrameRead(s: Settings, st: State)
    requires AreSettings(s) && st.sawSof && st.frame.progressive == s.progressive &&
             st.comps == AllDescribed(s.comps, |s.comps|)
    ensures HasFrame(s, st)
  {
    forall i | 0 <= i < |s.comps|
      ensures st.comps[i] == Described(s.comps[i])
    {
      DescribedAt(s.comps, |s.comps|, i);
    }
  }

  lemma FrameStays(s: Settings, st: State, st': State)
    requires HasFrame(s, st) && st'.sawSof == st.sawSof && st'.frame == st.frame && st'.comps == st.comps
    ensures HasFrame(s, st')
  {
  }

  lemma {:induction false} SelectedAlike(rs: seq<CompSpec>, comps: seq<CompSpec>, sc: ScanSpec, i: nat)
    requires i <= |sc.comps| && |rs| == |comps| && InFrame(sc, comps)
    ensures Alike(Selected(rs, comps, sc, i), rs)
    decreases |sc.comps| - i
  {
    if i < |sc.comps| {
      SelectedAlike(SetTables(rs, sc.comps[i], Selector(comps[sc.comps[i]], sc)), comps, sc, i + 1);
    }
  }

  /** Reading SOS leaves the frame as it was, but for the table numbers. */
  lemma FrameSelected(s: Settings, st: State, sc: ScanSpec)
    requires HasFrame(s, st) && InFrame(sc, s.comps)
    ensures |st.comps| == |s.comps| && HasFrame(s, st.(comps := Selected(st.comps, s.comps, sc, 0)))
  {
    SelectedAlike(st.comps, s.comps, sc, 0);
    var rs := Selected(st.comps, s.comps, sc, 0);
    assert forall i :: 0 <= i < |rs| ==> rs[i].id == st.comps[i].id;
  }

  /** A component of the scan gets the table numbers sent for it. */
  lemma {:induction false} SelectedAt(rs: seq<CompSpec>, comps: seq<CompSpec>, sc: ScanSpec, i: nat, j: nat)
    requires i <= |sc.comps| && |rs| == |comps| && InFrame(sc, comps) && j < |sc.comps|
    requires j < i ==> Tables(rs, sc.comps[j]) == (Selector(comps[sc.comps[j]], sc) / 16, Selector(comps[sc.comps[j]], sc) % 16)
    ensures Tables(Selected(rs, comps, sc, i), sc.comps[j])
            == (Selector(comps[sc.comps[j]], sc) / 16, Selector(comps[sc.comps[j]], sc) % 16)
    decreases |sc.comps| - i
  {
    if i < |sc.comps| {
      SelectedAt(SetTables(rs, sc.comps[i], Selector(comps[sc.comps[i]], sc)), comps, sc, i + 1, j);
    }
  }

  function Tables(rs: seq<CompSpec>, c: nat): (nat, nat)
    requires c < |rs|
  {
    (rs[c].dcTbl, rs[c].acTbl)
  }

  /** A table is needed for every component of the scan: a DC table unless it is a refinement, and an AC table if
      there are AC coefficients. */
  ghost predicate AllHuffs(s: Settings, sc: ScanSpec) {
    AreHuffs(s.huffs) && InFrame(sc, s.comps) && forall j :: 0 <= j < |sc.comps| ==> HuffsFor(s, sc, sc.comps[j])
  }

  ghost predicate HuffsFor(s: Settings, sc: ScanSpec, c: nat)
    requires AreHuffs(s.huffs) && c < |s.comps|
  {
    && (sc.ss == 0 && sc.ah == 0 ==> s.comps[c].dcTbl < NUM_HUFF_TBLS && s.huffs.dc[s.comps[c].dcTbl].Some?)
    && (sc.se != 0 ==> s.comps[c].acTbl < NUM_HUFF_TBLS && s.huffs.ac[s.comps[c].acTbl].Some?)
  }

  /** The reader has what the scan needs of component c: the numbers of its tables, and the tables. */
  ghost predicate CompKnown(s: Settings, sc: ScanSpec, st: State, c: nat) {
    && c < |s.comps| == |st.comps| && AreHuffs(st.huffs) && AreHuffs(s.huffs)
    && (sc.ss == 0 && sc.ah == 0 ==> st.comps[c].dcTbl == s.comps[c].dcTbl)
    && (sc.se != 0 ==> st.comps[c].acTbl == s.comps[c].acTbl)
    && if s.arith then CondKnown(s, sc, st, c)
       else
         && (sc.ss == 0 && sc.ah == 0 ==> s.comps[c].dcTbl < NUM_HUFF_TBLS && st.huffs.dc[s.comps[c].dcTbl].Some?
                                          && st.huffs.dc[s.comps[c].dcTbl] == s.huffs.dc[s.comps[c].dcTbl])
         && (sc.se != 0 ==> s.comps[c].acTbl < NUM_HUFF_TBLS && st.huffs.ac[s.comps[c].acTbl].Some?
                            && st.huffs.ac[s.comps[c].acTbl] == s.huffs.ac[s.comps[c].acTbl])
  }

  lemma CondStays(s: Settings, sc: ScanSpec, st: State, st': State, c: nat)
    requires st'.cond == st.cond
    ensures CondKnown(s, sc, st, c) ==> CondKnown(s, sc, st', c)
  {
  }
}
