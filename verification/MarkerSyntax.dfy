// The parameters of the markers as they stand in the datastream: what reading them does to the decompressor.
module MarkerSyntax {
  import opened Digits
  import opened Segments

  const NUM_QUANT_TBLS := 4
  const NUM_HUFF_TBLS := 4
  const NUM_ARITH_TBLS := 16
  const DCTSIZE2 := 64

  datatype Option<T> = None | Some(value: T)

  /** A Huffman table as DHT carries it: sixteen counts, and the symbols counted. */
  datatype HuffSpec = HuffSpec(bits: seq<byte>, vals: seq<byte>)

  /** Conditioning of the arithmetic coders. */
  datatype Conditioning = Conditioning(dcL: seq<nat>, dcU: seq<nat>, acK: seq<nat>)

  datatype Huffs = Huffs(dc: seq<Option<HuffSpec>>, ac: seq<Option<HuffSpec>>)

  // A quantization table, in natural order.
  type Quant = q: seq<nat> | |q| == 64 witness seq(64, _ => 0)

  type Quants = seq<Option<Quant>>

  datatype CompSpec = CompSpec(id: byte, hSamp: nat, vSamp: nat, quantTbl: nat, dcTbl: nat, acTbl: nat)

  datatype Frame = Frame(baseline: bool, progressive: bool, arith: bool, precision: nat, height: nat, width: nat,
                         numComponents: nat)

  /** A scan: components of the frame, and the progression parameters. */
  datatype ScanSpec = ScanSpec(comps: seq<nat>, ss: nat, se: nat, ah: nat, al: nat)

  /** The natural orders: of the block sizes 2 to 7, and of full blocks. */
  datatype Orders = Orders(small: SmallOrders, full: seq<nat>)

  type SmallOrders = s: seq<seq<nat>> | |s| == 8 witness [[], [], [], [], [], [], [], []]

  predicate IsOrderOf(order: seq<nat>, n: nat) {
    && n <= |order| && (forall i :: 0 <= i < n ==> order[i] < 64)
    && (forall i, j :: 0 <= i < j < n ==> order[i] != order[j])
  }

  ghost predicate Reaches(order: seq<nat>, k: nat) {
    exists i :: 0 <= i < |order| && i < 64 && order[i] == k
  }

  ghost predicate AreOrders(os: Orders) {
    && (forall b :: 2 <= b < 8 ==> IsOrderOf(os.small[b], b * b))
    && IsOrderOf(os.full, 64) && forall k :: 0 <= k < 64 ==> Reaches(os.full, k)
  }

  /** The order of a table of count entries. */
  function OrderFor(os: Orders, count: nat): seq<nat>
  {
    if count == 4 then os.small[2] else if count == 9 then os.small[3] else if count == 16 then os.small[4]
    else if count == 25 then os.small[5] else if count == 36 then os.small[6] else if count == 49 then os.small[7]
    else os.full
  }

  /** The result of reading: a value and the position after it; or the input ends first, with what was changed
      up to there; or an error. */
  datatype Parsed<T> = Done(value: T, next: nat) | NeedMore(value: T) | Bad

  function Two(d: seq<byte>, at: nat): nat
    requires at + 2 <= |d|
  {
    var high: nat := d[at];
    high * 256 + d[at + 1]
  }

  // ----- DRI

  function ParseDri(d: seq<byte>, at: nat, restartInterval: nat): Parsed<nat> {
    if |d| < at + 2 then NeedMore(restartInterval)
    else if Two(d, at) != 4 then Bad
    else if |d| < at + 4 then NeedMore(restartInterval)
    else Done(Two(d, at + 2), at + 4)
  }

  // ----- markers passed over

  /** The length counts itself; there is nothing to pass over if it is less than two. */
  function ParseSkip(d: seq<byte>, at: nat): (r: Parsed<()>)
    ensures r.Done? ==> at <= r.next <= |d|
    ensures !r.Bad?
  {
    if |d| < at + 2 then NeedMore(())
    else
      var next := at + if Two(d, at) > 2 then Two(d, at) else 2;
      if |d| < next then NeedMore(()) else Done((), next)
  }

  // ----- DAC

  ghost predicate IsConditioning(c: Conditioning) {
    |c.dcL| == NUM_ARITH_TBLS && |c.dcU| == NUM_ARITH_TBLS && |c.acK| == NUM_ARITH_TBLS
  }

  /** One entry: below 16 for a DC table, above for an AC table. */
  function SetConditioning(c: Conditioning, index: nat, val: byte): (r: Conditioning)
    requires IsConditioning(c) && index < 2 * NUM_ARITH_TBLS
    ensures IsConditioning(r)
  {
    if index >= NUM_ARITH_TBLS then c.(acK := c.acK[index - NUM_ARITH_TBLS := val])
    else c.(dcL := c.dcL[index := val % 16], dcU := c.dcU[index := val / 16])
  }

  function DacEntries(d: seq<byte>, at: nat, length: int, c: Conditioning): (r: Parsed<Conditioning>)
    requires IsConditioning(c) && at <= |d|
    ensures r.Done? || r.NeedMore? ==> IsConditioning(r.value)
    ensures r.Done? ==> at <= r.next <= |d|
    decreases length
  {
    if length <= 0 then (if length != 0 then Bad else Done(c, at))
    else if |d| < at + 2 then NeedMore(c)
    else if d[at] >= 2 * NUM_ARITH_TBLS then Bad
    else if d[at] < NUM_ARITH_TBLS && d[at + 1] % 16 > d[at + 1] / 16 then Bad
    else DacEntries(d, at + 2, length - 2, SetConditioning(c, d[at], d[at + 1]))
  }

  function ParseDac(d: seq<byte>, at: nat, c: Conditioning): (r: Parsed<Conditioning>)
    requires IsConditioning(c)
    ensures r.Done? || r.NeedMore? ==> IsConditioning(r.value)
    ensures r.Done? ==> at <= r.next <= |d|
  {
    if |d| < at + 2 then NeedMore(c) else DacEntries(d, at + 2, Two(d, at) - 2, c)
  }

  // ----- DHT

  ghost predicate AreHuffs(h: Huffs) {
    |h.dc| == NUM_HUFF_TBLS && |h.ac| == NUM_HUFF_TBLS
  }

  function Total(bits: seq<byte>): nat {
    if bits == [] then 0 else Total(bits[..|bits| - 1]) + bits[|bits| - 1]
  }

  /** The table an index byte names, or none. */
  function SlotOf(index: byte): Option<(bool, nat)> {
    var ac := index % 32 >= 16;
    var i := if ac then index - 16 else index;
    if i < NUM_HUFF_TBLS then Some((ac, i)) else None
  }

  function SetHuff(h: Huffs, slot: (bool, nat), t: HuffSpec): (r: Huffs)
    requires AreHuffs(h) && slot.1 < NUM_HUFF_TBLS
    ensures AreHuffs(r)
  {
    if slot.0 then h.(ac := h.ac[slot.1 := Some(t)]) else h.(dc := h.dc[slot.1 := Some(t)])
  }

  function DhtTables(d: seq<byte>, at: nat, length: int, h: Huffs): (r: Parsed<Huffs>)
    requires AreHuffs(h) && at <= |d|
    ensures r.Done? || r.NeedMore? ==> AreHuffs(r.value)
    ensures r.Done? ==> at <= r.next <= |d|
    decreases length
  {
    if length <= 16 then (if length != 0 then Bad else Done(h, at))
    else if |d| < at + 17 then NeedMore(h)
    else
      var bits := d[at + 1..at + 17];
      var count := Total(bits);
      if count > 256 || count > length - 17 then Bad
      else if |d| < at + 17 + count then NeedMore(h)
      else if SlotOf(d[at]).None? then Bad
      else
        DhtTables(d, at + 17 + count, length - 17 - count,
                  SetHuff(h, SlotOf(d[at]).value, HuffSpec(bits, d[at + 17..at + 17 + count])))
  }

  function ParseDht(d: seq<byte>, at: nat, h: Huffs): (r: Parsed<Huffs>)
    requires AreHuffs(h)
    ensures r.Done? || r.NeedMore? ==> AreHuffs(r.value)
    ensures r.Done? ==> at <= r.next <= |d|
  {
    if |d| < at + 2 then NeedMore(h) else DhtTables(d, at + 2, Two(d, at) - 2, h)
  }

  // ----- DQT

  /** Entries i to count of a table, one byte or two each, stored in the order given. */
  function DqtValues(d: seq<byte>, at: nat, i: nat, count: nat, wide: bool, order: seq<nat>,
                     q: Quant): (r: Parsed<Quant>)
    requires i <= count && IsOrderOf(order, count) && at <= |d|
    ensures r.Done? ==> at <= r.next <= |d|
    ensures !r.Bad?
    decreases count - i
  {
    var w := if wide then 2 else 1;
    if i == count then Done(q, at)
    else if |d| < at + w then NeedMore(q)
    else DqtValues(d, at + w, i + 1, count, wide, order, q[order[i] := if wide then Two(d, at) else d[at]])
  }

  function Ones(): Quant {
    seq(64, _ => 1)
  }

  function Zeros(): Quant {
    seq(64, _ => 0)
  }

  /** How many entries of a table there are in the rest of the marker. */
  function Entries(length: nat, wide: bool): nat {
    var n := if wide then length / 2 else length;
    if length < (if wide then DCTSIZE2 * 2 else DCTSIZE2) then n else DCTSIZE2
  }

  /** A table before its entries are read: all ones if it will not be filled, else what it was. */
  function Blank(q: Option<Quant>, count: nat): Quant {
    if count < DCTSIZE2 then Ones() else if q.Some? then q.value else Zeros()
  }

  lemma OrderIs(os: Orders, count: nat)
    requires AreOrders(os) && count <= 64
    ensures IsOrderOf(OrderFor(os, count), count)
  {
    assert IsOrderOf(os.small[2], 2 * 2) && IsOrderOf(os.small[3], 3 * 3) && IsOrderOf(os.small[4], 4 * 4);
    assert IsOrderOf(os.small[5], 5 * 5) && IsOrderOf(os.small[6], 6 * 6) && IsOrderOf(os.small[7], 7 * 7);
  }

  /** Table n. */
  function DqtTable(os: Orders, d: seq<byte>, at: nat, count: nat, wide: bool, n: nat, qs: Quants): (r: Parsed<Quants>)
    requires AreOrders(os) && |qs| == NUM_QUANT_TBLS && n < NUM_QUANT_TBLS && count <= 64 && at <= |d|
    ensures !r.Bad? && |r.value| == NUM_QUANT_TBLS
    ensures r.Done? ==> at <= r.next <= |d|
  {
    OrderIs(os, count);
    match DqtValues(d, at, 0, count, wide, OrderFor(os, count), Blank(qs[n], count))
    case NeedMore(q) => NeedMore(qs[n := Some(q)])
    case Bad => Bad
    case Done(q, next) => Done(qs[n := Some(q)], next)
  }

  function DqtTables(os: Orders, d: seq<byte>, at: nat, length: int, qs: Quants): (r: Parsed<Quants>)
    requires AreOrders(os) && |qs| == NUM_QUANT_TBLS && at <= |d|
    ensures r.Done? || r.NeedMore? ==> |r.value| == NUM_QUANT_TBLS
    ensures r.Done? ==> at <= r.next <= |d|
    decreases length
  {
    if length <= 0 then (if length != 0 then Bad else Done(qs, at))
    else if |d| < at + 1 then NeedMore(qs)
    else
      var wide, n := d[at] / 16 != 0, d[at] % 16;
      if n >= NUM_QUANT_TBLS then Bad
      else
        var count := Entries(length - 1, wide);
        match DqtTable(os, d, at + 1, count, wide, n, qs)
        case NeedMore(v) => NeedMore(v)
        case Bad => Bad
        case Done(v, next) => DqtTables(os, d, next, length - 1 - (if wide then 2 * count else count), v)
  }

  function ParseDqt(os: Orders, d: seq<byte>, at: nat, qs: Quants): (r: Parsed<Quants>)
    requires AreOrders(os) && |qs| == NUM_QUANT_TBLS
    ensures r.Done? || r.NeedMore? ==> |r.value| == NUM_QUANT_TBLS
    ensures r.Done? ==> at <= r.next <= |d|
  {
    if |d| < at + 2 then NeedMore(qs) else DqtTables(os, d, at + 2, Two(d, at) - 2, qs)
  }

  // ----- SOF

  function SofComp(d: seq<byte>, at: nat): CompSpec
    requires at + 3 <= |d|
  {
    CompSpec(d[at], d[at + 1] / 16, d[at + 1] % 16, d[at + 2], 0, 0)
  }

  function SofComps(d: seq<byte>, at: nat, n: nat): (r: seq<CompSpec>)
    requires at + 3 * n <= |d|
    ensures |r| == n
  {
    if n == 0 then [] else SofComps(d, at, n - 1) + [SofComp(d, at + 3 * (n - 1))]
  }

  /** The parameters of SOF, for the frame type its marker names; saw says whether there was one before. */
  function ParseSof(d: seq<byte>, at: nat, baseline: bool, progressive: bool, arith: bool, saw: bool)
    : (r: Parsed<(Frame, seq<CompSpec>)>)
    ensures r.Done? ==> at <= r.next <= |d|
  {
    var none := (Frame(baseline, progressive, arith, 0, 0, 0, 0), []);
    if |d| < at + 8 then NeedMore(none)
    else
      var f := Frame(baseline, progressive, arith, d[at + 2], Two(d, at + 3), Two(d, at + 5), d[at + 7]);
      if saw || f.height == 0 || f.width == 0 || f.numComponents == 0 then Bad
      else if Two(d, at) - 8 != f.numComponents * 3 then Bad
      else if |d| < at + 8 + 3 * f.numComponents then NeedMore(none)
      else Done((f, SofComps(d, at + 8, f.numComponents)), at + 8 + 3 * f.numComponents)
  }

  // ----- SOS

  /** The first component with the given identifier. */
  function FindComp(comps: seq<CompSpec>, id: byte, i: nat): Option<nat>
    requires i <= |comps|
    decreases |comps| - i
  {
    if i == |comps| then None else if comps[i].id == id then Some(i) else FindComp(comps, id, i + 1)
  }

  lemma {:induction false} FoundComp(comps: seq<CompSpec>, id: byte, i: nat)
    requires i <= |comps|
    ensures var r := FindComp(comps, id, i); r.Some? ==> i <= r.value < |comps| && comps[r.value].id == id
    decreases |comps| - i
  {
    if i < |comps| {
      FoundComp(comps, id, i + 1);
    }
  }

  function SetTables(comps: seq<CompSpec>, ci: nat, c: byte): (r: seq<CompSpec>)
    requires ci < |comps|
    ensures |r| == |comps|
  {
    comps[ci := comps[ci].(dcTbl := c / 16, acTbl := c % 16)]
  }

  /** The component selectors of a scan, from the i-th on. */
  function SosComps(d: seq<byte>, at: nat, n: nat, comps: seq<CompSpec>, sel: seq<nat>)
    : (r: Parsed<(seq<CompSpec>, seq<nat>)>)
    requires at <= |d|
    ensures r.Done? ==> at <= r.next <= |d| && |r.value.1| == |sel| + n
    ensures r.Done? || r.NeedMore? ==> |r.value.0| == |comps|
    decreases n
  {
    if n == 0 then Done((comps, sel), at)
    else if |d| < at + 2 then NeedMore((comps, sel))
    else
      var r := FindComp(comps, d[at], 0);
      FoundComp(comps, d[at], 0);
      if r.None? then Bad
      else SosComps(d, at + 2, n - 1, SetTables(comps, r.value, d[at + 1]), sel + [r.value])
  }

  /** The parameters of SOS; a scan without components is allowed in progressive mode only. */
  function ParseSos(d: seq<byte>, at: nat, sawSof: bool, progressive: bool, comps: seq<CompSpec>)
    : (r: Parsed<(seq<CompSpec>, ScanSpec)>)
    ensures r.Done? ==> at <= r.next <= |d|
  {
    if !sawSof then Bad
    else if |d| < at + 3 then NeedMore((comps, ScanSpec([], 0, 0, 0, 0)))
    else
      var n := d[at + 2];
      if Two(d, at) != n * 2 + 6 || n > MAX_COMPS_IN_SCAN || (n == 0 && !progressive) then Bad
      else
        match SosComps(d, at + 3, n, comps, [])
        case NeedMore(v) => NeedMore((v.0, ScanSpec([], 0, 0, 0, 0)))
        case Bad => Bad
        case Done(v, next) =>
          if |d| < next + 3 then NeedMore((v.0, ScanSpec([], 0, 0, 0, 0)))
          else Done((v.0, ScanSpec(v.1, d[next], d[next + 1], d[next + 2] / 16, d[next + 2] % 16)), next + 3)
  }

  // ----- between markers

  datatype Found = Found(code: nat, next: nat) | NotYet

  /** Past fill bytes. */
  function SkipFill(d: seq<byte>, at: nat): (r: nat)
    ensures at <= r && (r > |d| ==> r == at)
    decreases |d| - at
  {
    if at < |d| && d[at] == 0xFF then SkipFill(d, at + 1) else at
  }

  /** The next marker: an FF byte, more of them, and a code that is not 0. Anything else is passed over. */
  function FindMarker(d: seq<byte>, at: nat): (r: Found)
    ensures r.Found? ==> at < r.next <= |d| && 0 < r.code < 256
    decreases |d| - at
  {
    if at >= |d| then NotYet
    else if d[at] != 0xFF then FindMarker(d, at + 1)
    else
      var k := SkipFill(d, at + 1);
      if k >= |d| then NotYet else if d[k] == 0 then FindMarker(d, k + 1) else Found(d[k], k + 1)
  }

  // ----- whole headers

  const M_SOF0 := 0xC0
  const M_SOF1 := 0xC1
  const M_SOF2 := 0xC2
  const M_SOF9 := 0xC9
  const M_SOF10 := 0xCA
  const M_DHT := 0xC4
  const M_DAC := 0xCC
  const M_RST0 := 0xD0
  const M_RST7 := 0xD7
  const M_SOI := 0xD8
  const M_EOI := 0xD9
  const M_SOS := 0xDA
  const M_DQT := 0xDB
  const M_DRI := 0xDD
  const M_DNL := 0xDC
  const M_APP0 := 0xE0
  const M_APP15 := 0xEF
  const M_COM := 0xFE
  const M_TEM := 0x01

  predicate IsSof(code: nat) {
    code == M_SOF0 || code == M_SOF1 || code == M_SOF2 || code == M_SOF9 || code == M_SOF10
  }

  predicate IsParameterless(code: nat) {
    M_RST0 <= code <= M_RST7 || code == M_TEM
  }

  /** Markers whose contents do not matter here: application data, comments, and DNL. */
  predicate IsSkipped(code: nat) {
    M_APP0 <= code <= M_APP15 || code == M_COM || code == M_DNL
  }

  /** What the marker reader keeps in the decompressor. */
  datatype State = State(sawSoi: bool, sawSof: bool, frame: Frame, comps: seq<CompSpec>, scan: ScanSpec, quants: Quants,
                         huffs: Huffs, cond: Conditioning, restartInterval: nat, nextRestartNum: nat,
                             inputScanNumber: nat)

  ghost predicate IsState(st: State) {
    |st.quants| == NUM_QUANT_TBLS && AreHuffs(st.huffs) && IsConditioning(st.cond)
  }

  function DefaultConditioning(): (c: Conditioning)
    ensures IsConditioning(c)
  {
    Conditioning(seq(NUM_ARITH_TBLS, _ => 0), seq(NUM_ARITH_TBLS, _ => 1), seq(NUM_ARITH_TBLS, _ => 5))
  }

  /** What reading the parameters of a marker makes of the state. */
  function Step(os: Orders, d: seq<byte>, code: nat, at: nat, st: State): (r: Parsed<State>)
    requires AreOrders(os) && IsState(st) && at <= |d|
    ensures r.Done? ==> at <= r.next <= |d| && IsState(r.value)
  {
    if code == M_SOI then
      if st.sawSoi then Bad
      else Done(st.(sawSoi := true, cond := DefaultConditioning(), restartInterval := 0), at)
    else if IsSof(code) then
      match ParseSof(d, at, code == M_SOF0, code == M_SOF2 || code == M_SOF10, code == M_SOF9 ||
          code == M_SOF10, st.sawSof)
      case NeedMore(_) => NeedMore(st)
      case Bad => Bad
      case Done(v, next) => Done(st.(frame := v.0, comps := v.1, sawSof := true), next)
    else if code == M_SOS then
      match ParseSos(d, at, st.sawSof, st.frame.progressive, st.comps)
      case NeedMore(v) => NeedMore(st.(comps := v.0))
      case Bad => Bad
      case Done(v, next) =>
        Done(st.(comps := v.0, scan := v.1, nextRestartNum := 0,
                 inputScanNumber := st.inputScanNumber + (if v.1.comps != [] then 1 else 0)), next)
    else if code == M_DAC then
      match ParseDac(d, at, st.cond)
      case NeedMore(v) => NeedMore(st.(cond := v))
      case Bad => Bad
      case Done(v, next) => Done(st.(cond := v), next)
    else if code == M_DHT then
      match ParseDht(d, at, st.huffs)
      case NeedMore(v) => NeedMore(st.(huffs := v))
      case Bad => Bad
      case Done(v, next) => Done(st.(huffs := v), next)
    else if code == M_DQT then
      match ParseDqt(os, d, at, st.quants)
      case NeedMore(v) => NeedMore(st.(quants := v))
      case Bad => Bad
      case Done(v, next) => Done(st.(quants := v), next)
    else if code == M_DRI then
      match ParseDri(d, at, st.restartInterval)
      case NeedMore(v) => NeedMore(st.(restartInterval := v))
      case Bad => Bad
      case Done(v, next) => Done(st.(restartInterval := v), next)
    else if IsSkipped(code) then
      match ParseSkip(d, at)
      case NeedMore(_) => NeedMore(st)
      case Bad => Bad
      case Done(_, next) => Done(st, next)
    else if IsParameterless(code) then Done(st, at)
    else Bad
  }

  datatype Outcome = ReachedSos(st: State, next: nat) | ReachedEoi(st: State, next: nat) | Error | Short

  /** Reading markers up to SOS or EOI, from a position where no marker is pending. */
  function Run(os: Orders, d: seq<byte>, at: nat, st: State): Outcome
    requires AreOrders(os) && IsState(st) && at <= |d|
    decreases |d| - at, 0
  {
    if !st.sawSoi then
      if |d| < at + 2 then Short
      else if d[at] != 0xFF || d[at + 1] != M_SOI then Error
      else RunCode(os, d, M_SOI, at + 2, st)
    else
      var f := FindMarker(d, at);
      if f.NotYet? then Short else RunCode(os, d, f.code, f.next, st)
  }

  /** The same, with the marker read and its parameters to come. */
  function RunCode(os: Orders, d: seq<byte>, code: nat, at: nat, st: State): Outcome
    requires AreOrders(os) && IsState(st) && at <= |d|
    decreases |d| - at, 1
  {
    if code == M_EOI then ReachedEoi(st, at)
    else
      match Step(os, d, code, at, st)
      case NeedMore(_) => Short
      case Bad => Error
      case Done(v, next) => if code == M_SOS then ReachedSos(v, next) else Run(os, d, next, v)
  }
}
